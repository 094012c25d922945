/**
  The stream of records that the cache keeps of a message, laid out over fixed-size blocks, and the
  resumable reader that rebuilds the message from it.
 */
module CacheStream {
  import opened Basics

  // ---- Records ----

  const HTX_BLK_HDR := 2
  const HTX_BLK_DATA := 4
  const HTX_BLK_TLR := 5

  /** The four bytes of a word with the type and size of a block of the message, and its contents. */
  datatype Record = Record(word: seq<byte>, payload: seq<byte>)

  function TypeOf(info: nat): nat
  {
    info / 0x1000_0000
  }

  /** For headers and trailers the size is given as that of the name and that of the value. */
  function SizeOf(info: nat): nat
  {
    if TypeOf(info) == HTX_BLK_HDR || TypeOf(info) == HTX_BLK_TLR then info % 0x100 + (info / 0x100) % 0x10_0000
    else info % 0x1000_0000
  }

  /** A word made of a type and the sizes of a name and a value, or of a type and one size, gives these back. */
  lemma InfoReads(kind: nat, name: nat, value: nat, len: nat)
    requires kind < 0x10 && name < 0x100 && value < 0x10_0000 && len < 0x1000_0000
    ensures var info := kind * 0x1000_0000 + value * 0x100 + name;
      TypeOf(info) == kind && ((kind == HTX_BLK_HDR || kind == HTX_BLK_TLR) ==> SizeOf(info) == name + value)
    ensures var info := kind * 0x1000_0000 + len;
      TypeOf(info) == kind && (kind != HTX_BLK_HDR && kind != HTX_BLK_TLR ==> SizeOf(info) == len)
  {
  }

  /** The word that four bytes in memory make. */
  function Info(s: seq<byte>): (info: nat)
    requires |s| == 4
  {
    var a: int, b: int, c: int, d: int := s[0], s[1], s[2], s[3];
    a + 0x100 * b + 0x1_0000 * c + 0x100_0000 * d
  }

  ghost predicate ValidRecord(r: Record)
  {
    |r.word| == 4 && |r.payload| == SizeOf(Info(r.word))
  }

  ghost predicate IsData(r: Record)
  {
    |r.word| == 4 && TypeOf(Info(r.word)) == HTX_BLK_DATA
  }

  ghost predicate AllValid(rs: seq<Record>)
  {
    forall i :: 0 <= i < |rs| ==> ValidRecord(rs[i])
  }

  ghost function Encode(rs: seq<Record>): seq<byte>
  {
    if rs == [] then [] else rs[0].word + rs[0].payload + Encode(rs[1..])
  }

  // ---- Blocks ----

  /** Blocks of the same size, one after the other. */
  datatype Row = Row(blocks: seq<seq<byte>>, size: nat)

  ghost predicate ValidRow(row: Row)
  {
    row.size >= 4 && forall i :: 0 <= i < |row.blocks| ==> |row.blocks[i]| == row.size
  }

  ghost function Flat(blocks: seq<seq<byte>>): seq<byte>
  {
    if blocks == [] then [] else blocks[0] + Flat(blocks[1..])
  }

  /** Where a block of the row begins. */
  ghost function Begin(next: nat, size: nat): nat
  {
    if next == 0 then 0 else Begin(next - 1, size) + size
  }

  /** The place of a byte in the row. */
  ghost function At(row: Row, next: nat, offset: nat): nat
  {
    Begin(next, row.size) + offset
  }

  lemma BehindFirst(head: seq<byte>, rest: seq<byte>, a: nat, m: nat)
    requires a + m <= |rest|
    ensures (head + rest)[|head| + a..|head| + a + m] == rest[a..a + m]
  {
  }

  /** m bytes of one block are those at their place in the row. */
  lemma {:induction false} PieceAt(blocks: seq<seq<byte>>, size: nat, next: nat, offset: nat, m: nat)
    requires forall i :: 0 <= i < |blocks| ==> |blocks[i]| == size
    requires next < |blocks| && offset + m <= size
    ensures Begin(next, size) + offset + m <= |Flat(blocks)|
    ensures blocks[next][offset..offset + m] == Flat(blocks)[Begin(next, size) + offset..Begin(next, size) + offset + m]
  {
    var rest := Flat(blocks[1..]);
    if next > 0 {
      PieceAt(blocks[1..], size, next - 1, offset, m);
      var a := Begin(next - 1, size) + offset;
      BehindFirst(blocks[0], rest, a, m);
      assert Begin(next, size) + offset == size + a;
    } else {
      assert blocks[0][offset..offset + m] == Flat(blocks)[offset..offset + m];
    }
  }

  lemma {:induction false} FlatSize(blocks: seq<seq<byte>>, size: nat)
    requires forall i :: 0 <= i < |blocks| ==> |blocks[i]| == size
    ensures |Flat(blocks)| == Begin(|blocks|, size)
  {
    if blocks != [] { FlatSize(blocks[1..], size); }
  }

  lemma {:induction false} BeginMonotone(a: nat, b: nat, size: nat)
    requires a <= b
    ensures Begin(a, size) <= Begin(b, size)
  {
    if a < b { BeginMonotone(a, b - 1, size); }
  }

  /** A place within the row is in one of its blocks. */
  lemma InsideRow(row: Row, next: nat, offset: nat)
    requires ValidRow(row) && offset <= row.size && At(row, next, offset) < |Flat(row.blocks)|
    ensures next < |row.blocks| && (offset == row.size ==> next + 1 < |row.blocks|)
    ensures At(row, next + 1, 0) == At(row, next, row.size)
  {
    FlatSize(row.blocks, row.size);
    if next >= |row.blocks| { BeginMonotone(|row.blocks|, next, row.size); }
    if next + 1 >= |row.blocks| { BeginMonotone(|row.blocks|, next + 1, row.size); }
  }

  // ---- What is delivered, and what should be ----

  /** The message as it is rebuilt: octets of data, which may be regrouped, and other blocks. */
  datatype Got = Octet(b: byte) | Block(info: nat, payload: seq<byte>)

  /** For a block also whether its payload lies within one block of the row. */
  datatype Want = WantOctet(b: byte) | WantBlock(info: nat, payload: seq<byte>, fits: bool)

  /** How far a place of the row is into its block. */
  function Within(q: nat, size: nat): (r: nat)
    requires size > 0
    ensures r < size
  {
    if q < size then q else Within(q - size, size)
  }

  /** n bytes at q lie within one block of the row. */
  predicate Fits(q: nat, n: nat, size: nat)
    requires size > 0
  {
    n == 0 || Within(q, size) + n <= size
  }

  ghost function Octets(s: seq<byte>): (w: seq<Want>)
    ensures |w| == |s| && forall i :: 0 <= i < |s| ==> w[i] == WantOctet(s[i])
  {
    seq(|s|, i requires 0 <= i < |s| => WantOctet(s[i]))
  }

  /** The first n records, stored from q on. */
  ghost function Wanted(rs: seq<Record>, n: nat, q: nat, size: nat): seq<Want>
    requires n <= |rs| && AllValid(rs) && size > 0
  {
    if n == 0 then []
    else
      var r := rs[n - 1];
      Wanted(rs, n - 1, q, size) +
      if IsData(r) then Octets(r.payload)
      else [WantBlock(Info(r.word), r.payload, Fits(q + Stored(rs, n - 1) + 4, |r.payload|, size))]
  }

  /** How many bytes the first n records take. */
  ghost function Stored(rs: seq<Record>, n: nat): nat
    requires n <= |rs|
  {
    if n == 0 then 0 else Stored(rs, n - 1) + 4 + |rs[n - 1].payload|
  }

  ghost predicate Right(g: Got, w: Want)
  {
    match w
    case WantOctet(b) => g == Octet(b)
    case WantBlock(info, payload, fits) =>
      g.Block? && g.info == info && |g.payload| == |payload| && (fits ==> g.payload == payload)
  }

  ghost predicate Delivered(got: seq<Got>, want: seq<Want>)
  {
    |got| == |want| && forall i :: 0 <= i < |got| ==> Right(got[i], want[i])
  }

  // ---- Copying a payload ----

  /** How many of n bytes at q lie in the block there. */
  function Piece(q: nat, n: nat, size: nat): (m: nat)
    requires size > 0
    ensures m <= n && m <= size && (n > 0 ==> m > 0) && (m == n <==> Fits(q, n, size))
  {
    if n < size - Within(q, size) then n else size - Within(q, size)
  }

  ghost function Overwrite(buf: seq<byte>, piece: seq<byte>): (r: seq<byte>)
    requires |piece| <= |buf|
    ensures |r| == |buf|
  {
    piece + buf[|piece|..]
  }

  /** What copying the n bytes at q makes of a buffer: each piece that lies in one block goes to its start. */
  ghost function Copied(buf: seq<byte>, flat: seq<byte>, q: nat, n: nat, size: nat): seq<byte>
    requires n <= |buf| && q + n <= |flat| && size > 0
    decreases n
  {
    if n == 0 then buf
    else
      var m := Piece(q, n, size);
      Copied(Overwrite(buf, flat[q..q + m]), flat, q + m, n - m, size)
  }

  lemma CopiedOnce(buf: seq<byte>, flat: seq<byte>, q: nat, n: nat, size: nat, m: nat)
    requires 0 < n <= |buf| && q + n <= |flat| && size > 0 && m == Piece(q, n, size)
    ensures Copied(buf, flat, q, n, size) == Copied(Overwrite(buf, flat[q..q + m]), flat, q + m, n - m, size)
  {
  }

  /** What lies after the longest piece is not touched. */
  lemma {:induction false} CopiedSize(buf: seq<byte>, flat: seq<byte>, q: nat, n: nat, size: nat, k: nat)
    requires n <= |buf| && q + n <= |flat| && size > 0
    ensures |Copied(buf, flat, q, n, size)| == |buf|
    ensures n <= k < |buf| ==> Copied(buf, flat, q, n, size)[k] == buf[k]
    decreases n
  {
    if n > 0 {
      var m := Piece(q, n, size);
      CopiedSize(Overwrite(buf, flat[q..q + m]), flat, q + m, n - m, size, k);
    }
  }

  lemma CopiedFits(buf: seq<byte>, flat: seq<byte>, q: nat, n: nat, size: nat)
    requires |buf| == n && q + n <= |flat| && size > 0 && Fits(q, n, size)
    ensures Copied(buf, flat, q, n, size) == flat[q..q + n]
  {
    if n > 0 {
      assert Overwrite(buf, flat[q..q + n]) == flat[q..q + n];
      CopiedOnce(buf, flat, q, n, size, n);
    }
  }

  /** A buffer that keeps its last byte when the payload is in more than one piece. */
  lemma CopiedSpoils(flat: seq<byte>, q: nat, n: nat, size: nat) returns (buf: seq<byte>)
    requires q + n <= |flat| && size > 0 && !Fits(q, n, size)
    ensures |buf| == n && Copied(buf, flat, q, n, size) != flat[q..q + n]
  {
    var last, m := flat[q + n - 1], Piece(q, n, size);
    var other: byte := if last == 0 then 1 else 0;
    buf := seq(n, i => other);
    CopiedOnce(buf, flat, q, n, size, m);
    var over := Overwrite(buf, flat[q..q + m]);
    assert m < n && over[n - 1] == buf[n - 1] == other;
    CopiedSize(over, flat, q + m, n - m, size, n - 1);
    assert flat[q..q + n][n - 1] == last;
  }

  /** The payload is delivered whole, whatever the buffer held before, if and only if it lies within one block. */
  lemma CopiedWhole(flat: seq<byte>, q: nat, n: nat, size: nat)
    requires q + n <= |flat| && size > 0
    ensures (forall buf: seq<byte> :: |buf| == n ==> Copied(buf, flat, q, n, size) == flat[q..q + n]) <==>
      Fits(q, n, size)
  {
    if Fits(q, n, size) {
      forall buf: seq<byte> | |buf| == n ensures Copied(buf, flat, q, n, size) == flat[q..q + n] {
        CopiedFits(buf, flat, q, n, size);
      }
    } else {
      var buf := CopiedSpoils(flat, q, n, size);
    }
  }

  lemma {:induction false} WithinAt(next: nat, offset: nat, size: nat)
    requires offset < size
    ensures Within(Begin(next, size) + offset, size) == offset
  {
    if next > 0 { WithinAt(next - 1, offset, size); }
  }

  // ---- The reader ----

  /** Bytes of data as they are received. */
  function Sent(s: seq<byte>): (g: seq<Got>)
    ensures |g| == |s| && forall i :: 0 <= i < |s| ==> g[i] == Octet(s[i])
  {
    seq(|s|, i requires 0 <= i < |s| => Octet(s[i]))
  }

  function Min(a: nat, b: nat): nat
  {
    if a < b then a else b
  }

  /** What the message has room for at one turn: what htx_get_max_blksz gives, whether there is a place for one more
      block, and how many bytes of data are taken. */
  datatype Room = Room(max: nat, free: bool, takes: nat)

  class Htx {
    var content: seq<Got>

    /** htx_add_blk where there is a place for a block: its memory holds anything. */
    method AddBlk(blksz: nat)
      modifies this
      ensures |content| == |old(content)| + 1 && content[..|old(content)|] == old(content)
      ensures content[|content| - 1].Block? && |content[|content| - 1].payload| == blksz
    {
      var zeroes: seq<byte> := seq(blksz, i => 0);
      var memory: seq<byte> :| |memory| == |zeroes|;
      content := content + [Block(0, memory)];
    }

    method SetInfo(info: nat)
      requires content != [] && content[|content| - 1].Block?
      modifies this
      ensures content == old(content)[..|old(content)| - 1] + [Block(info, old(content)[|old(content)| - 1].payload)]
    {
      content := content[..|content| - 1] + [Block(info, content[|content| - 1].payload)];
    }

    /** Copies bytes to the start of the payload of the last block. */
    method Copy(piece: seq<byte>)
      requires content != [] && content[|content| - 1].Block? && |piece| <= |content[|content| - 1].payload|
      modifies this
      ensures var last := old(content)[|old(content)| - 1];
        content == old(content)[..|old(content)| - 1] + [Block(last.info, Overwrite(last.payload, piece))]
    {
      var last := content[|content| - 1];
      content := content[..|content| - 1] + [Block(last.info, piece + last.payload[|piece|..])];
    }

    /** htx_add_data: as many of the bytes as are taken. */
    method AddData(data: seq<byte>, takes: nat) returns (sz: nat)
      modifies this
      ensures sz == Min(|data|, takes) && content == old(content) + Sent(data[..sz])
    {
      sz := Min(|data|, takes);
      content := content + Sent(data[..sz]);
    }
  }

  class Appctx {
    var next: nat
    var offset: nat
    var sent: nat
    var rem_data: nat

    /** Where to go on next time. */
    method Update(next: nat, offset: nat, total: nat, rem_data: nat)
      modifies this
      ensures this.next == next && this.offset == offset && sent == old(sent) + total && this.rem_data == rem_data
    {
      this.offset := offset;
      this.next := next;
      sent := sent + total;
      this.rem_data := rem_data;
    }
  }

  /** The reader has sent n records, and of the next one, if it is data, all but the last rem bytes; left is
      what it has not sent yet. */
  ghost predicate Progress(q: nat, size: nat, rs: seq<Record>, n: nat, sent: nat, rem: nat, left: seq<byte>,
      got: seq<Got>)
    requires size > 0
  {
    && AllValid(rs) && n <= |rs|
    && if rem == 0 then
         && sent == Stored(rs, n)
         && left == Encode(rs[n..])
         && Delivered(got, Wanted(rs, n, q, size))
       else
         && n < |rs| && IsData(rs[n]) && rem <= |rs[n].payload|
         && sent == Stored(rs, n) + 4 + |rs[n].payload| - rem
         && left == rs[n].payload[|rs[n].payload| - rem..] + Encode(rs[n + 1..])
         && Delivered(got, Wanted(rs, n, q, size) + Octets(rs[n].payload[..|rs[n].payload| - rem]))
  }

  /** What the reader has not sent yet lies in the row from its place up to end. */
  ghost predicate Sending(row: Row, q: nat, end: nat, rs: seq<Record>, next: nat, offset: nat, sent: nat, rem: nat,
      got: seq<Got>, n: nat)
  {
    && ValidRow(row) && offset <= row.size && At(row, next, offset) == q + sent <= end <= |Flat(row.blocks)|
    && Progress(q, row.size, rs, n, sent, rem, Flat(row.blocks)[q + sent..end], got)
  }

  lemma CutAt(flat: seq<byte>, p: nat, end: nat, a: seq<byte>, b: seq<byte>)
    requires p <= end <= |flat| && flat[p..end] == a + b
    ensures p + |a| <= end && flat[p..p + |a|] == a && flat[p + |a|..end] == b
  {
    var s := flat[p..end];
    assert flat[p..p + |a|] == s[..|a|] && flat[p + |a|..end] == s[|a|..];
  }

  /** The next record, as it lies in the row. */
  lemma NextRecord(flat: seq<byte>, p: nat, end: nat, rs: seq<Record>, n: nat)
    requires n < |rs| && AllValid(rs) && p <= end <= |flat| && flat[p..end] == Encode(rs[n..])
    ensures var r := rs[n];
      && p + 4 + |r.payload| <= end && flat[p..p + 4] == r.word
      && flat[p + 4..end] == r.payload + Encode(rs[n + 1..])
      && flat[p + 4..p + 4 + |r.payload|] == r.payload && flat[p + 4 + |r.payload|..end] == Encode(rs[n + 1..])
  {
    var r, rest := rs[n], Encode(rs[n + 1..]);
    assert rs[n..][1..] == rs[n + 1..];
    assert Encode(rs[n..]) == r.word + (r.payload + rest);
    CutAt(flat, p, end, r.word, r.payload + rest);
    CutAt(flat, p + 4, end, r.payload, rest);
  }

  /** m bytes from a place in the row, the rest of its block being longer. */
  lemma ReadAt(row: Row, next: nat, offset: nat, m: nat)
    requires ValidRow(row) && offset + m <= row.size && At(row, next, offset) + m <= |Flat(row.blocks)|
    ensures m > 0 ==>
      && next < |row.blocks| && row.blocks[next][offset..offset + m] ==
      Flat(row.blocks)[At(row, next, offset)..At(row, next, offset) + m]
  {
    if m > 0 {
      InsideRow(row, next, offset);
      PieceAt(row.blocks, row.size, next, offset, m);
    }
  }

  /** One piece of a payload is copied. */
  lemma CopyStep(row: Row, next: nat, offset: nat, blksz: nat, memory: seq<byte>, m: nat) returns (memory': seq<byte>)
    requires ValidRow(row) && offset <= row.size && 0 < blksz <= |memory|
    requires At(row, next, offset) + blksz <= |Flat(row.blocks)|
    requires m == if blksz < row.size - offset then blksz else row.size - offset
    ensures next < |row.blocks| && At(row, next + 1, 0) == At(row, next, row.size)
    ensures memory' == Overwrite(memory, row.blocks[next][offset..offset + m])
    ensures var p, flat := At(row, next, offset), Flat(row.blocks);
      Copied(memory, flat, p, blksz, row.size) == Copied(memory', flat, p + m, blksz - m, row.size)
  {
    InsideRow(row, next, offset);
    memory' := Overwrite(memory, row.blocks[next][offset..offset + m]);
    if offset < row.size {
      WithinAt(next, offset, row.size);
      ReadAt(row, next, offset, m);
      CopiedOnce(memory, Flat(row.blocks), At(row, next, offset), blksz, row.size, m);
    } else {
      assert memory' == memory;
    }
  }

  /** The loop of htx_cache_dump_blk: n bytes from the row into the last block of the message. */
  method CopyPayload(htx: Htx, next0: nat, offset0: nat, n: nat, row: Row, ghost info: nat, ghost before: seq<Got>,
      ghost buf: seq<byte>)
    returns (next: nat, offset: nat)
    requires ValidRow(row) && offset0 <= row.size && At(row, next0, offset0) + n <= |Flat(row.blocks)|
    requires |buf| == n && htx.content == before + [Block(info, buf)]
    modifies htx
    ensures offset <= row.size && At(row, next, offset) == At(row, next0, offset0) + n
    ensures htx.content == before + [Block(info, Copied(buf, Flat(row.blocks), At(row, next0, offset0), n, row.size))]
  {
    ghost var flat, q, memory := Flat(row.blocks), At(row, next0, offset0), buf;
    next, offset := next0, offset0;
    var blksz: nat := n;
    while blksz > 0
      invariant offset <= row.size && blksz <= n && At(row, next, offset) + blksz == q + n
      invariant |memory| == n && htx.content == before + [Block(info, memory)]
      invariant Copied(memory, flat, At(row, next, offset), blksz, row.size) == Copied(buf, flat, q, n, row.size)
      decreases blksz, if offset == row.size then 1 else 0
    {
      var max := if blksz < row.size - offset then blksz else row.size - offset;
      memory := CopyStep(row, next, offset, blksz, memory, max);
      htx.Copy(row.blocks[next][offset..offset + max]);
      offset := offset + max;
      blksz := blksz - max;
      if blksz > 0 || offset == row.size {
        next := next + 1;
        offset := 0;
      }
    }
  }

  /** The word at the reader's place, which may be split over two blocks. */
  method ReadInfo(row: Row, next: nat, offset: nat) returns (info: nat, next': nat, offset': nat)
    requires ValidRow(row) && offset <= row.size && At(row, next, offset) + 4 <= |Flat(row.blocks)|
    ensures var p := At(row, next, offset); info == Info(Flat(row.blocks)[p..p + 4])
    ensures offset' <= row.size && At(row, next', offset') == At(row, next, offset) + 4
  {
    ghost var p, flat := At(row, next, offset), Flat(row.blocks);
    InsideRow(row, next, offset);
    var sz := if 4 < row.size - offset then 4 else row.size - offset;
    ReadAt(row, next, offset, sz);
    var bytes := row.blocks[next][offset..offset + sz];
    next', offset' := next, offset + sz;
    if sz < 4 {
      InsideRow(row, next, row.size);
      next' := next + 1;
      ReadAt(row, next', 0, 4 - sz);
      assert flat[p..p + 4] == flat[p..p + sz] + flat[p + sz..p + sz + (4 - sz)];
      bytes := bytes + row.blocks[next'][0..4 - sz];
      offset' := 4 - sz;
    }
    info := Info(bytes);
  }

  lemma DeliveredMore(got: seq<Got>, want: seq<Want>, g: seq<Got>, w: seq<Want>)
    requires Delivered(got, want) && Delivered(g, w)
    ensures Delivered(got + g, want + w)
  {
  }

  lemma NextLeft(rs: seq<Record>, n: nat, left: seq<byte>)
    requires n < |rs| && AllValid(rs) && left == Encode(rs[n..])
    ensures var k := 4 + |rs[n].payload|;
      k <= |left| && left[4..k] == rs[n].payload && left[k..] == Encode(rs[n + 1..])
  {
    var r, rest := rs[n], Encode(rs[n + 1..]);
    assert rs[n..][1..] == rs[n + 1..];
    assert left == r.word + r.payload + rest;
  }

  /** A record other than data has been sent. */
  lemma BlockProgress(q: nat, size: nat, rs: seq<Record>, n: nat, left: seq<byte>, got: seq<Got>, g: Got)
    requires size > 0 && n < |rs| && !IsData(rs[n]) && Progress(q, size, rs, n, Stored(rs, n), 0, left, got)
    requires var r := rs[n];
      Right(g, WantBlock(Info(r.word), r.payload, Fits(q + Stored(rs, n) + 4, |r.payload|, size)))
    ensures var k := 4 + |rs[n].payload|;
      k <= |left| && Progress(q, size, rs, n + 1, Stored(rs, n) + k, 0, left[k..], got + [g])
  {
    var r := rs[n];
    NextLeft(rs, n, left);
    DeliveredMore(got, Wanted(rs, n, q, size), [g],
      [WantBlock(Info(r.word), r.payload, Fits(q + Stored(rs, n) + 4, |r.payload|, size))]);
  }

  /** The bytes of a part of the row. */
  lemma PartOf(flat: seq<byte>, p: nat, end: nat, a: nat, b: nat)
    requires p <= end <= |flat| && a <= b <= end - p
    ensures flat[p..end][a..b] == flat[p + a..p + b]
    ensures flat[p..end][b..] == flat[p + b..end]
  {
    var s := flat[p..end];
    assert forall i :: 0 <= i < |s| ==> s[i] == flat[p + i];
    assert s[a..b] == flat[p + a..p + b];
    assert s[b..] == flat[p + b..end];
  }

  /** A block has been sent. */
  lemma BlockSent(row: Row, q: nat, end: nat, rs: seq<Record>, next: nat, offset: nat, got: seq<Got>, n: nat,
      next': nat, offset': nat, g: Got)
    requires n < |rs| && Sending(row, q, end, rs, next, offset, Stored(rs, n), 0, got, n) && !IsData(rs[n])
    requires var r := rs[n];
      Right(g, WantBlock(Info(r.word), r.payload, Fits(q + Stored(rs, n) + 4, |r.payload|, row.size)))
    requires offset' <= row.size && At(row, next', offset') == q + Stored(rs, n) + 4 + |rs[n].payload|
    ensures Sending(row, q, end, rs, next', offset', Stored(rs, n) + 4 + |rs[n].payload|, 0, got + [g], n + 1)
  {
    var flat, p, k := Flat(row.blocks), q + Stored(rs, n), 4 + |rs[n].payload|;
    BlockProgress(q, row.size, rs, n, flat[p..end], got, g);
    PartOf(flat, p, end, k, k);
  }

  lemma BlockRight(info: nat, payload: seq<byte>, buf: seq<byte>, flat: seq<byte>, p: nat, size: nat)
    requires |buf| == |payload| && size > 0 && p + |buf| <= |flat| && flat[p..p + |buf|] == payload
    ensures Right(Block(info, Copied(buf, flat, p, |buf|, size)), WantBlock(info, payload, Fits(p, |buf|, size)))
  {
    CopiedSize(buf, flat, p, |buf|, size, 0);
    if Fits(p, |buf|, size) { CopiedFits(buf, flat, p, |buf|, size); }
  }

  /** A payload copied into the last block: right at least if it lies within one block of the row. */
  method CopyBlock(htx: Htx, next0: nat, offset0: nat, n: nat, row: Row, ghost info: nat, ghost before: seq<Got>,
      ghost buf: seq<byte>, ghost payload: seq<byte>) returns (next: nat, offset: nat, ghost g: Got)
    requires ValidRow(row) && offset0 <= row.size && At(row, next0, offset0) + n <= |Flat(row.blocks)|
    requires |buf| == n == |payload| && htx.content == before + [Block(info, buf)]
    requires var p := At(row, next0, offset0); Flat(row.blocks)[p..p + n] == payload
    modifies htx
    ensures offset <= row.size && At(row, next, offset) == At(row, next0, offset0) + n
    ensures htx.content == before + [g]
    ensures Right(g, WantBlock(info, payload, Fits(At(row, next0, offset0), n, row.size)))
  {
    next, offset := CopyPayload(htx, next0, offset0, n, row, info, before, buf);
    g := Block(info, Copied(buf, Flat(row.blocks), At(row, next0, offset0), n, row.size));
    BlockRight(info, payload, buf, Flat(row.blocks), At(row, next0, offset0), row.size);
  }

  /** There is room for the record at hand, of which rem bytes of data are left if that is not zero: for a block as
      a whole, for data at least for their word or some of the bytes. */
  ghost predicate HasRoom(room: Room, r: Record, rem: nat)
  {
    && room.max > 0
    && if rem > 0 then room.takes > 0 else IsData(r) || (room.free && |r.payload| <= room.max)
  }

  ghost predicate Holds(flat: seq<byte>, p: nat, s: seq<byte>)
  {
    p + |s| <= |flat| && flat[p..p + |s|] == s
  }

  /** The second half of htx_cache_dump_blk: the block that has been added is filled. */
  method FillBlk(appctx: Appctx, htx: Htx, info: nat, shblk: nat, offset: nat, row: Row, ghost q: nat,
      ghost end: nat, ghost rs: seq<Record>, ghost n: nat, ghost before: seq<Got>) returns (total: nat)
    requires appctx.rem_data == 0 && Sending(row, q, end, rs, appctx.next, appctx.offset, appctx.sent, 0, before, n)
    requires n < |rs| && info == Info(rs[n].word) && !IsData(rs[n])
    requires offset <= row.size && At(row, shblk, offset) == q + appctx.sent + 4
      && Holds(Flat(row.blocks), q + appctx.sent + 4, rs[n].payload)
    requires |htx.content| == |before| + 1 && htx.content[..|before|] == before
    requires htx.content[|before|].Block? && |htx.content[|before|].payload| == SizeOf(info)
    modifies appctx, htx
    ensures total == 4 + |rs[n].payload| && appctx.rem_data == 0 && appctx.sent == old(appctx.sent) + total
    ensures Sending(row, q, end, rs, appctx.next, appctx.offset, appctx.sent, 0, htx.content, n + 1)
  {
    ghost var buf := htx.content[|before|].payload;
    htx.SetInfo(info);
    assert htx.content == before + [Block(info, buf)];
    var blksz := SizeOf(info);
    total := 4 + blksz;
    var next, offset';
    ghost var g;
    next, offset', g := CopyBlock(htx, shblk, offset, blksz, row, info, before, buf, rs[n].payload);
    BlockSent(row, q, end, rs, appctx.next, appctx.offset, before, n, next, offset', g);
    appctx.offset := offset';
    appctx.next := next;
    appctx.sent := appctx.sent + total;
  }

  /** htx_cache_dump_blk: the block goes into the message if and only if there is room for all of it. */
  method DumpBlk(appctx: Appctx, htx: Htx, info: nat, shblk: nat, offset: nat, room: Room, row: Row, ghost q: nat,
      ghost end: nat, ghost rs: seq<Record>, ghost n: nat)
    returns (total: nat)
    requires appctx.rem_data == 0 && Sending(row, q, end, rs, appctx.next, appctx.offset, appctx.sent, 0,
      htx.content, n)
    requires n < |rs| && info == Info(rs[n].word) && !IsData(rs[n])
    requires offset <= row.size && At(row, shblk, offset) == q + appctx.sent + 4
    modifies appctx, htx
    ensures appctx.rem_data == 0 && appctx.sent == old(appctx.sent) + total
    ensures total == if HasRoom(room, rs[n], 0) then 4 + |rs[n].payload| else 0
    ensures Sending(row, q, end, rs, appctx.next, appctx.offset, appctx.sent, 0, htx.content,
      if total == 0 then n else n + 1)
    ensures total == 0 ==> htx.content == old(htx.content)
  {
    NextRecord(Flat(row.blocks), q + appctx.sent, end, rs, n);
    var max := room.max;
    if max == 0 { return 0; }
    var blksz := SizeOf(info);
    if blksz > max { return 0; }
    ghost var before := htx.content;
    if !room.free { return 0; }
    htx.AddBlk(blksz);
    total := FillBlk(appctx, htx, info, shblk, offset, row, q, end, rs, n, before);
  }

  lemma SentDelivered(s: seq<byte>)
    ensures Delivered(Sent(s), Octets(s))
  {
  }

  lemma SentJoined(before: seq<Got>, flat: seq<byte>, p: nat, here: nat, sz: nat)
    requires p <= here && here + sz <= |flat|
    ensures before + Sent(flat[p..here]) + Sent(flat[here..here + sz]) == before + Sent(flat[p..here + sz])
  {
    assert flat[p..here] + flat[here..here + sz] == flat[p..here + sz];
    assert Sent(flat[p..here]) + Sent(flat[here..here + sz]) == Sent(flat[p..here + sz]);
  }

  /** The bytes of a block are those of the row at its place. */
  lemma PieceSent(row: Row, next: nat, offset: nat, max: nat, sz: nat, here: nat)
    requires ValidRow(row) && offset + max <= row.size && 0 < max && sz <= max
    requires here == At(row, next, offset) && here + max <= |Flat(row.blocks)|
    ensures next < |row.blocks| && row.blocks[next][offset..offset + max][..sz] == Flat(row.blocks)[here..here + sz]
  {
    ReadAt(row, next, offset, max);
    var flat := Flat(row.blocks);
    assert flat[here..here + max][..sz] == flat[here..here + sz];
  }

  /** One turn of the loop of htx_cache_dump_data_blk: as many of the bytes left as the block has are offered, and
      some of these are taken. */
  method SendPiece(htx: Htx, next: nat, offset: nat, left: nat, takes: nat, row: Row, ghost here: nat)
    returns (max: nat, sz: nat)
    requires ValidRow(row) && offset <= row.size && left > 0
    requires here == At(row, next, offset) && here + left <= |Flat(row.blocks)|
    modifies htx
    ensures max == (if left < row.size - offset then left else row.size - offset) && sz == Min(max, takes)
    ensures htx.content == old(htx.content) + Sent(Flat(row.blocks)[here..here + sz])
  {
    InsideRow(row, next, offset);
    max := if left < row.size - offset then left else row.size - offset;
    sz := htx.AddData(row.blocks[next][offset..offset + max], takes);
    if max > 0 { PieceSent(row, next, offset, max, sz, here); }
  }

  /** The loop of htx_cache_dump_data_blk: up to blksz bytes from the row to the end of the message; left of
      them are not taken. */
  method SendData(htx: Htx, next0: nat, offset0: nat, blksz: nat, takes0: nat, row: Row)
    returns (next: nat, offset: nat, left: nat)
    requires ValidRow(row) && offset0 <= row.size && At(row, next0, offset0) + blksz <= |Flat(row.blocks)|
    modifies htx
    ensures left == blksz - Min(blksz, takes0)
    ensures offset <= row.size && At(row, next, offset) == At(row, next0, offset0) + blksz - left
    ensures htx.content == old(htx.content) + Sent(Flat(row.blocks)[At(row, next0, offset0)..At(row, next, offset)])
  {
    ghost var flat, p, before := Flat(row.blocks), At(row, next0, offset0), htx.content;
    ghost var here := p;
    var takes: nat := takes0;
    next, offset, left := next0, offset0, blksz;
    while left > 0
      invariant left <= blksz && takes + blksz == takes0 + left
      invariant offset <= row.size && here == At(row, next, offset) && here + left == p + blksz
      invariant htx.content == before + Sent(flat[p..here])
      decreases left, if offset == row.size then 1 else 0
    {
      var max, sz := SendPiece(htx, next, offset, left, takes, row, here);
      SentJoined(before, flat, p, here, sz);
      here := here + sz;
      offset := offset + sz;
      left := left - sz;
      takes := takes - sz;
      if sz < max { break; }
      if left > 0 || offset == row.size {
        next := next + 1;
        offset := 0;
      }
    }
  }

  /** Of the data of the n-th record all but the last rem bytes, which begin at p, have been delivered. */
  ghost predicate Begun(q: nat, size: nat, rs: seq<Record>, n: nat, p: nat, rem: nat, left: seq<byte>, got: seq<Got>)
    requires size > 0
  {
    && AllValid(rs) && n < |rs| && IsData(rs[n]) && rem <= |rs[n].payload|
    && p == q + Stored(rs, n) + 4 + |rs[n].payload| - rem
    && left == rs[n].payload[|rs[n].payload| - rem..] + Encode(rs[n + 1..])
    && Delivered(got, Wanted(rs, n, q, size) + Octets(rs[n].payload[..|rs[n].payload| - rem]))
  }

  /** Where the payload of the data begins or goes on, and how much of it is left. */
  ghost predicate InData(row: Row, q: nat, end: nat, rs: seq<Record>, n: nat, p: nat, rem: nat, got: seq<Got>)
  {
    && ValidRow(row) && p <= end <= |Flat(row.blocks)|
    && Begun(q, row.size, rs, n, p, rem, Flat(row.blocks)[p..end], got)
  }

  lemma DataCut(payload: seq<byte>, k: nat, k': nat, rest: seq<byte>, want: seq<Want>)
    requires k <= k' <= |payload|
    ensures var m, left := k' - k, payload[k..] + rest;
      left[..m] == payload[k..k'] && left[m..] == payload[k'..] + rest
    ensures want + Octets(payload[..k]) + Octets(payload[k..k']) == want + Octets(payload[..k'])
  {
  }

  /** Some more bytes of the data are delivered. */
  lemma DataMore(q: nat, size: nat, rs: seq<Record>, n: nat, p: nat, rem: nat, left: seq<byte>, got: seq<Got>, m: nat)
    requires size > 0 && Begun(q, size, rs, n, p, rem, left, got) && m <= rem
    ensures m <= |left| && Begun(q, size, rs, n, p + m, rem - m, left[m..], got + Sent(left[..m]))
  {
    var payload, want, rest := rs[n].payload, Wanted(rs, n, q, size), Encode(rs[n + 1..]);
    var k := |payload| - rem;
    var more := payload[k..k + m];
    DataCut(payload, k, k + m, rest, want);
    assert k + m == |payload| - (rem - m) && left[..m] == more && left[m..] == payload[k + m..] + rest;
    SentDelivered(more);
    DeliveredMore(got, want + Octets(payload[..k]), Sent(more), Octets(more));
  }

  lemma DataOn(row: Row, q: nat, end: nat, rs: seq<Record>, n: nat, p: nat, rem: nat, got: seq<Got>, rem': nat)
    requires InData(row, q, end, rs, n, p, rem, got) && rem' <= rem
    ensures p + rem - rem' <= end
    ensures InData(row, q, end, rs, n, p + rem - rem', rem', got + Sent(Flat(row.blocks)[p..p + rem - rem']))
  {
    var flat, m := Flat(row.blocks), rem - rem';
    DataMore(q, row.size, rs, n, p, rem, flat[p..end], got, m);
    PartOf(flat, p, end, 0, m);
  }

  lemma NothingLeft(payload: seq<byte>, rest: seq<byte>)
    ensures payload[..|payload|] == payload && payload[|payload|..] + rest == rest
  {
  }

  /** Between two calls: inside the record, or past it with nothing left. */
  lemma DataStops(q: nat, size: nat, rs: seq<Record>, n: nat, p: nat, rem: nat, left: seq<byte>, got: seq<Got>)
    requires size > 0 && Begun(q, size, rs, n, p, rem, left, got)
    ensures Progress(q, size, rs, if rem == 0 then n + 1 else n, p - q, rem, left, got)
  {
    if rem == 0 { NothingLeft(rs[n].payload, Encode(rs[n + 1..])); }
  }

  lemma DataEnds(row: Row, q: nat, end: nat, rs: seq<Record>, n: nat, p: nat, rem: nat, got: seq<Got>, next: nat,
      offset: nat)
    requires InData(row, q, end, rs, n, p, rem, got) && offset <= row.size && At(row, next, offset) == p
    ensures Sending(row, q, end, rs, next, offset, p - q, rem, got, if rem == 0 then n + 1 else n)
  {
    DataStops(q, row.size, rs, n, p, rem, Flat(row.blocks)[p..end], got);
  }

  lemma Rejoined(left: seq<byte>, i: nat, payload: seq<byte>, rest: seq<byte>)
    requires i + |payload| <= |left| && left[i..i + |payload|] == payload && left[i + |payload|..] == rest
    ensures left[i..] == payload + rest
  {
    assert left[i..] == left[i..i + |payload|] + left[i + |payload|..];
  }

  lemma NothingYet(payload: seq<byte>, want: seq<Want>)
    ensures payload[0..] == payload && want + Octets(payload[..0]) == want
  {
  }

  lemma DataStarts(q: nat, size: nat, rs: seq<Record>, n: nat, left: seq<byte>, got: seq<Got>)
    requires size > 0 && n < |rs| && IsData(rs[n]) && Progress(q, size, rs, n, Stored(rs, n), 0, left, got)
    ensures 4 <= |left| && Begun(q, size, rs, n, q + Stored(rs, n) + 4, |rs[n].payload|, left[4..], got)
  {
    var r, rest := rs[n], Encode(rs[n + 1..]);
    NextLeft(rs, n, left);
    Rejoined(left, 4, r.payload, rest);
    NothingYet(r.payload, Wanted(rs, n, q, size));
  }

  lemma DataBegins(row: Row, q: nat, end: nat, rs: seq<Record>, next: nat, offset: nat, got: seq<Got>, n: nat)
    requires n < |rs| && Sending(row, q, end, rs, next, offset, Stored(rs, n), 0, got, n) && IsData(rs[n])
    ensures InData(row, q, end, rs, n, q + Stored(rs, n) + 4, |rs[n].payload|, got)
  {
    var flat, p := Flat(row.blocks), q + Stored(rs, n);
    var left := flat[p..end];
    DataStarts(q, row.size, rs, n, left, got);
    assert left[4..] == flat[p + 4..end];
  }

  /** Where to go on: inside a data record, or with the one whose word has just been read. */
  lemma DataPlace(row: Row, q: nat, end: nat, rs: seq<Record>, next: nat, offset: nat, sent: nat, rem: nat,
      got: seq<Got>, n: nat)
    returns (p: nat, left: nat)
    requires n < |rs| && Sending(row, q, end, rs, next, offset, sent, rem, got, n) && IsData(rs[n])
    ensures p == q + sent + (if rem == 0 then 4 else 0) && left == if rem == 0 then |rs[n].payload| else rem
    ensures InData(row, q, end, rs, n, p, left, got) && p + left <= |Flat(row.blocks)|
  {
    if rem == 0 {
      DataBegins(row, q, end, rs, next, offset, got, n);
      p, left := q + sent + 4, |rs[n].payload|;
    } else {
      p, left := q + sent, rem;
    }
    CutAt(Flat(row.blocks), p, end, rs[n].payload[|rs[n].payload| - left..], Encode(rs[n + 1..]));
  }

  /** What the loop has sent, seen as a place between two calls. */
  lemma DataGone(row: Row, q: nat, end: nat, rs: seq<Record>, n: nat, p: nat, rem: nat, got: seq<Got>, rem': nat,
      got': seq<Got>, next: nat, offset: nat, sent: nat)
    requires InData(row, q, end, rs, n, p, rem, got) && rem' <= rem && p + rem - rem' <= |Flat(row.blocks)|
    requires got' == got + Sent(Flat(row.blocks)[p..p + rem - rem'])
    requires offset <= row.size && At(row, next, offset) == p + rem - rem' == q + sent
    ensures Sending(row, q, end, rs, next, offset, sent, rem', got', if rem' == 0 then n + 1 else n)
  {
    DataOn(row, q, end, rs, n, p, rem, got, rem');
    DataEnds(row, q, end, rs, n, q + sent, rem', got', next, offset);
    assert q + sent - q == sent;
  }

  /** The second half of htx_cache_dump_data_blk, with blksz bytes to send and rem_data more that there is no
      room for; the word, if it was read, counts as sent. */
  method FillData(appctx: Appctx, htx: Htx, shblk: nat, offset: nat, blksz: nat, rem_data0: nat, word: nat,
      takes: nat, row: Row, ghost q: nat, ghost end: nat, ghost rs: seq<Record>, ghost n: nat)
    returns (total: nat, ghost n': nat)
    requires InData(row, q, end, rs, n, At(row, shblk, offset), blksz + rem_data0, htx.content) && offset <= row.size
    requires At(row, shblk, offset) == q + appctx.sent + word
      && At(row, shblk, offset) + blksz + rem_data0 <= |Flat(row.blocks)|
    modifies appctx, htx
    ensures appctx.sent == old(appctx.sent) + total && total == word + Min(blksz, takes)
    ensures appctx.rem_data == rem_data0 + blksz - Min(blksz, takes)
    ensures n' == if appctx.rem_data == 0 then n + 1 else n
    ensures Min(blksz, takes) == 0 ==> htx.content == old(htx.content)
    ensures Sending(row, q, end, rs, appctx.next, appctx.offset, appctx.sent, appctx.rem_data, htx.content, n')
  {
    ghost var before, p := htx.content, At(row, shblk, offset);
    var next, offset', left := SendData(htx, shblk, offset, blksz, takes, row);
    total := word + blksz - left;
    var rem_data := rem_data0 + left;
    DataGone(row, q, end, rs, n, p, blksz + rem_data0, before, rem_data, htx.content, next, offset',
      appctx.sent + total);
    n' := if rem_data == 0 then n + 1 else n;
    appctx.Update(next, offset', total, rem_data);
  }

  lemma StepIs(room: Room, r: Record, rem: nat, left: nat, word: nat, blksz: nat, total: nat, rem': nat)
    requires room.max > 0 && left == (if rem > 0 then rem else |r.payload|) && word == if rem > 0 then 0 else 4
    requires blksz == Min(left, room.max)
    requires total == word + Min(blksz, room.takes) && rem' == left - Min(blksz, room.takes)
    ensures DataStep(room, r, rem, total, rem')
    ensures total == 0 ==> Min(blksz, room.takes) == 0 && rem' > 0
  {
  }

  /** htx_cache_dump_data_blk: of the bytes left of the data as many go as there is room for and as are taken. */
  method DumpDataBlk(appctx: Appctx, htx: Htx, info: nat, shblk: nat, offset: nat, room: Room, row: Row, ghost q: nat,
      ghost end: nat, ghost rs: seq<Record>, ghost n: nat)
    returns (total: nat, ghost n': nat)
    requires Sending(row, q, end, rs, appctx.next, appctx.offset, appctx.sent, appctx.rem_data, htx.content, n)
    requires n < |rs| && IsData(rs[n]) && (appctx.rem_data == 0 ==> info == Info(rs[n].word))
    requires offset <= row.size && At(row, shblk, offset) == q + appctx.sent + if appctx.rem_data == 0 then 4 else 0
    modifies appctx, htx
    ensures appctx.sent == old(appctx.sent) + total
    ensures DataStep(room, rs[n], old(appctx.rem_data), total, appctx.rem_data)
    ensures n' == if total > 0 && appctx.rem_data == 0 then n + 1 else n
    ensures Sending(row, q, end, rs, appctx.next, appctx.offset, appctx.sent, appctx.rem_data, htx.content, n')
    ensures total == 0 ==> htx.content == old(htx.content)
  {
    var max := room.max;
    if max == 0 { return 0, n; }
    ghost var p, rem := DataPlace(row, q, end, rs, appctx.next, appctx.offset, appctx.sent, appctx.rem_data,
      htx.content, n);
    var blksz, word, rem_data: nat;
    if appctx.rem_data != 0 {
      blksz, word := appctx.rem_data, 0;
    } else {
      blksz, word := info % 0x1000_0000, 4;
    }
    assert blksz == rem;
    rem_data := 0;
    if blksz > max {
      rem_data := blksz - max;
      blksz := max;
    }
    ghost var rem0 := appctx.rem_data;
    total, n' := FillData(appctx, htx, shblk, offset, blksz, rem_data, word, room.takes, row, q, end, rs, n);
    StepIs(room, rs[n], rem0, rem, word, blksz, total, appctx.rem_data);
  }

  /** What one turn does with data, of which rem bytes are left, or all and the word if that is zero: total counts what
      is sent, and rem' bytes are left then. */
  ghost predicate DataStep(room: Room, r: Record, rem: nat, total: nat, rem': nat)
  {
    var left, word := if rem > 0 then rem else |r.payload|, if rem > 0 then 0 else 4;
    if room.max == 0 then total == 0 && rem' == rem
    else
      && total == word + Min(left, Min(room.max, room.takes))
      && rem' == left - Min(left, Min(room.max, room.takes))
  }

  /** The stream ends with the last record. */
  lemma RecordsLeft(row: Row, q: nat, end: nat, rs: seq<Record>, next: nat, offset: nat, sent: nat, rem: nat,
      got: seq<Got>, n: nat)
    requires Sending(row, q, end, rs, next, offset, sent, rem, got, n)
    ensures n < |rs| <==> q + sent < end
    ensures if n < |rs| then rem <= |rs[n].payload| else rem == 0
    ensures rem == 0 && n < |rs| ==>
      && At(row, next, offset) + 4 <= end
      && Flat(row.blocks)[q + sent..q + sent + 4] == rs[n].word
  {
    if rem == 0 && n < |rs| {
      NextRecord(Flat(row.blocks), q + sent, end, rs, n);
    } else if rem == 0 {
      assert rs[n..] == [];
    } else {
      CutAt(Flat(row.blocks), q + sent, end, rs[n].payload[|rs[n].payload| - rem..], Encode(rs[n + 1..]));
    }
  }

  /** What one turn does: with no room for the record at hand nothing, else it sends the block, or some of the
      data. */
  ghost predicate OneTurn(room: Room, rs: seq<Record>, n: nat, rem: nat, ret: nat, n': nat, rem': nat)
    requires n < |rs|
  {
    && (ret > 0 <==> HasRoom(room, rs[n], rem))
    && (ret == 0 ==> n' == n && rem' == rem)
    && (ret > 0 && !IsData(rs[n]) ==> n' == n + 1 && rem' == 0)
    && (ret > 0 && IsData(rs[n]) ==>
          DataStep(room, rs[n], rem, ret, rem') && n' == if rem' == 0 then n + 1 else n)
  }

  lemma DataTurn(room: Room, rs: seq<Record>, n: nat, rem: nat, ret: nat, n': nat, rem': nat)
    requires n < |rs| && IsData(rs[n]) && DataStep(room, rs[n], rem, ret, rem')
    requires n' == if ret > 0 && rem' == 0 then n + 1 else n
    ensures OneTurn(room, rs, n, rem, ret, n', rem')
  {
  }

  lemma BlockTurn(room: Room, rs: seq<Record>, n: nat, ret: nat, n': nat)
    requires n < |rs| && !IsData(rs[n]) && ret == if HasRoom(room, rs[n], 0) then 4 + |rs[n].payload| else 0
    requires n' == if ret == 0 then n else n + 1
    ensures OneTurn(room, rs, n, 0, ret, n', 0)
  {
  }

  /** One turn of the loop of htx_cache_dump_msg. */
  method DumpNext(appctx: Appctx, htx: Htx, room: Room, row: Row, ghost q: nat, ghost end: nat, ghost rs: seq<Record>,
      ghost n: nat)
    returns (ret: nat, kind: nat, ghost n': nat)
    requires Sending(row, q, end, rs, appctx.next, appctx.offset, appctx.sent, appctx.rem_data, htx.content, n)
      && q + appctx.sent < end
    modifies appctx, htx
    ensures appctx.sent == old(appctx.sent) + ret
    ensures n < |rs| && kind == TypeOf(Info(rs[n].word)) && old(appctx.rem_data) <= |rs[n].payload|
    ensures OneTurn(room, rs, n, old(appctx.rem_data), ret, n', appctx.rem_data)
    ensures Sending(row, q, end, rs, appctx.next, appctx.offset, appctx.sent, appctx.rem_data, htx.content, n')
  {
    RecordsLeft(row, q, end, rs, appctx.next, appctx.offset, appctx.sent, appctx.rem_data, htx.content, n);
    var shblk, offset := appctx.next, appctx.offset;
    if appctx.rem_data != 0 {
      kind := HTX_BLK_DATA;
      ghost var rem := appctx.rem_data;
      ret, n' := DumpDataBlk(appctx, htx, 0, shblk, offset, room, row, q, end, rs, n);
      DataTurn(room, rs, n, rem, ret, n', appctx.rem_data);
      return;
    }
    var info;
    info, shblk, offset := ReadInfo(row, shblk, offset);
    kind := TypeOf(info);
    if kind != HTX_BLK_DATA {
      ret := DumpBlk(appctx, htx, info, shblk, offset, room, row, q, end, rs, n);
      n' := if ret == 0 then n else n + 1;
      BlockTurn(room, rs, n, ret, n');
    } else {
      ret, n' := DumpDataBlk(appctx, htx, info, shblk, offset, room, row, q, end, rs, n);
      DataTurn(room, rs, n, 0, ret, n', appctx.rem_data);
    }
  }

  ghost predicate IsMark(rs: seq<Record>, k: nat, mark: nat)
  {
    k < |rs| && |rs[k].word| == 4 && TypeOf(Info(rs[k].word)) == mark
  }

  /** A call that was to stop behind the first record of type mark has sent the records from n up to n', and all of the
      next one but rem bytes. */
  ghost predicate UpToMark(rs: seq<Record>, n: nat, n': nat, rem: nat, mark: nat)
  {
    && n <= n'
    && (forall k :: n <= k && k + 1 < n' ==> !IsMark(rs, k, mark))
    && (n < n' && IsMark(rs, n' - 1, mark) ==> rem == 0)
  }

  /** A call ends with the first record of type mark. */
  ghost predicate AtMark(rs: seq<Record>, n: nat, n': nat, mark: nat)
  {
    n < n' && IsMark(rs, n' - 1, mark)
  }

  /** Why a call has not sent everything: it has come to the mark, the data at hand was more than there was room for,
      or there was no room for the next record. */
  ghost predicate Ends(rs: seq<Record>, n: nat, n': nat, rem: nat, mark: nat, room: Room)
  {
    || AtMark(rs, n, n', mark)
    || (n' < |rs| && rem > 0 && Min(room.max, room.takes) < |rs[n'].payload|)
    || (n' < |rs| && !HasRoom(room, rs[n'], rem))
  }

  /** There is room for any of the records as a whole at every turn. */
  ghost predicate Ample(rooms: nat -> Room, rs: seq<Record>)
  {
    forall i :: rooms(i).max > 0 && rooms(i).free &&
      forall k :: 0 <= k < |rs| ==> |rs[k].payload| <= Min(rooms(i).max, rooms(i).takes)
  }

  /** A call that began with record n, rem0 bytes being left of it, and goes on with record k and its turn-th turn. */
  ghost predicate Going(rs: seq<Record>, n: nat, rem0: nat, k: nat, rem: nat, mark: nat, rooms: nat -> Room, turn: nat)
  {
    && UpToMark(rs, n, k, rem, mark) && !AtMark(rs, n, k, mark)
    && (turn == 0 ==> k == n && rem == rem0)
    && (turn > 0 ==> n < |rs| && HasRoom(rooms(0), rs[n], rem0))
    && (rem0 == 0 && Ample(rooms, rs) ==> rem == 0)
  }

  lemma TurnOn(rs: seq<Record>, n: nat, rem0: nat, k: nat, rem: nat, mark: nat, rooms: nat -> Room, turn: nat,
      ret: nat, k': nat, rem': nat)
    requires k < |rs| && |rs[k].word| == 4 && rem <= |rs[k].payload|
    requires Going(rs, n, rem0, k, rem, mark, rooms, turn)
    requires OneTurn(rooms(turn), rs, k, rem, ret, k', rem')
    ensures UpToMark(rs, n, k', rem', mark) && n < |rs|
    ensures ret > 0 || turn > 0 <==> HasRoom(rooms(0), rs[n], rem0)
    ensures ret == 0 || rem' > 0 ==> Ends(rs, n, k', rem', mark, rooms(turn))
    ensures ret > 0 && rem' == 0 ==>
      if TypeOf(Info(rs[k].word)) == mark then AtMark(rs, n, k', mark)
      else Going(rs, n, rem0, k', 0, mark, rooms, turn + 1)
    ensures rem0 == 0 && Ample(rooms, rs) ==> ret > 0 && rem' == 0
  {
    if Ample(rooms, rs) {
      assert rooms(turn).free && |rs[k].payload| <= Min(rooms(turn).max, rooms(turn).takes);
    }
  }

  /** htx_cache_dump_msg: whatever room there is, what has been sent stays the beginning of what is stored. A call stops
      behind the first record of type mark, inside data, or where there is no room for more; rooms(i) is what there is
      room for at the i-th turn. */
  method DumpMsg(appctx: Appctx, htx: Htx, len0: nat, mark: nat, rooms: nat -> Room, row: Row, ghost q: nat,
      ghost end: nat, ghost rs: seq<Record>, ghost n: nat)
    returns (total: nat, ghost n': nat, ghost i: nat)
    requires Sending(row, q, end, rs, appctx.next, appctx.offset, appctx.sent, appctx.rem_data, htx.content, n)
    requires q + appctx.sent + len0 == end
    modifies appctx, htx
    ensures appctx.sent == old(appctx.sent) + total && total <= len0
    ensures Sending(row, q, end, rs, appctx.next, appctx.offset, appctx.sent, appctx.rem_data, htx.content, n')
    ensures UpToMark(rs, n, n', appctx.rem_data, mark)
    ensures total < len0 ==> Ends(rs, n, n', appctx.rem_data, mark, rooms(i))
    ensures len0 > 0 ==> n < |rs| && (total > 0 <==> HasRoom(rooms(0), rs[n], old(appctx.rem_data)))
    ensures old(appctx.rem_data) == 0 && Ample(rooms, rs) && total < len0 ==>
      appctx.rem_data == 0 && AtMark(rs, n, n', mark)
  {
    total, n', i := 0, n, 0;
    var len: nat, turn: nat := len0, 0;
    ghost var rem0 := appctx.rem_data;
    while len > 0
      invariant total + len == len0 && appctx.sent == old(appctx.sent) + total && i == turn
      invariant q + appctx.sent + len == end && (turn > 0 <==> total > 0)
      invariant Sending(row, q, end, rs, appctx.next, appctx.offset, appctx.sent, appctx.rem_data, htx.content, n')
      invariant Going(rs, n, rem0, n', appctx.rem_data, mark, rooms, turn)
    {
      var ret, kind;
      ghost var k, rem := n', appctx.rem_data;
      ret, kind, n' := DumpNext(appctx, htx, rooms(turn), row, q, end, rs, n');
      TurnOn(rs, n, rem0, k, rem, mark, rooms, turn, ret, n', appctx.rem_data);
      if ret == 0 { break; }
      total := total + ret;
      len := len - ret;
      if appctx.rem_data != 0 || kind == mark { break; }
      turn := turn + 1;
      i := turn;
    }
  }

  /** Once all bytes are sent, just the stored records are delivered, in order and each once. */
  lemma AllDelivered(row: Row, q: nat, end: nat, rs: seq<Record>, next: nat, offset: nat, sent: nat, rem: nat,
      got: seq<Got>, n: nat)
    requires Sending(row, q, end, rs, next, offset, sent, rem, got, n) && q + sent == end
    ensures rem == 0 && n == |rs| && Delivered(got, Wanted(rs, |rs|, q, row.size))
  {
    RecordsLeft(row, q, end, rs, next, offset, sent, rem, got, n);
  }

  /** The state set up before the first call. */
  lemma Starts(row: Row, q: nat, rs: seq<Record>)
    requires ValidRow(row) && AllValid(rs) && q <= row.size && q + |Encode(rs)| <= |Flat(row.blocks)|
    requires Flat(row.blocks)[q..q + |Encode(rs)|] == Encode(rs)
    ensures Sending(row, q, q + |Encode(rs)|, rs, 0, q, 0, 0, [], 0)
  {
    assert rs[0..] == rs;
  }
}
