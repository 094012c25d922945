/**
  How the cache stores a part of a message: the records it makes of the blocks, which the reader
  turns back into the same content.
 */
module CacheStore {
  import opened Basics
  import opened CacheStream

  const HTX_BLK_UNUSED := 15

  // ---- The content of a message ----

  /** What a block of a message holds. Blocks without size are passed over. */
  ghost function ContentOf(blk: Record): seq<Got>
    requires |blk.word| == 4
  {
    if blk.payload == [] then [] else if IsData(blk) then Sent(blk.payload) else [Block(Info(blk.word), blk.payload)]
  }

  ghost function Content(blks: seq<Record>): seq<Got>
    requires AllValid(blks)
  {
    if blks == [] then [] else ContentOf(blks[0]) + Content(blks[1..])
  }

  /** How far an item brings the offset forward. */
  ghost function Size(g: Got): nat
  {
    if g.Octet? then 1 else |g.payload|
  }

  ghost function Weight(c: seq<Got>): nat
  {
    if c == [] then 0 else Size(c[0]) + Weight(c[1..])
  }

  lemma {:induction false} WeightSum(a: seq<Got>, b: seq<Got>)
    ensures Weight(a + b) == Weight(a) + Weight(b)
  {
    if a == [] {
      assert a + b == b;
    } else {
      WeightSum(a[1..], b);
      assert (a + b)[1..] == a[1..] + b;
    }
  }

  lemma {:induction false} WeightSent(s: seq<byte>)
    ensures Weight(Sent(s)) == |s|
  {
    if s != [] {
      WeightSent(s[1..]);
      assert Sent(s)[1..] == Sent(s[1..]);
    }
  }

  lemma TailOfSum<T>(a: seq<T>, b: seq<T>)
    requires a != []
    ensures a + b != [] && (a + b)[0] == a[0] && (a + b)[1..] == a[1..] + b
  {
  }

  lemma {:induction false} ContentSum(a: seq<Record>, b: seq<Record>)
    requires AllValid(a) && AllValid(b)
    ensures AllValid(a + b) && Content(a + b) == Content(a) + Content(b)
  {
    if a == [] {
      assert a + b == b;
    } else {
      ContentSum(a[1..], b);
      TailOfSum(a, b);
    }
  }

  lemma {:induction false} EncodeEnd(a: seq<Record>, r: Record)
    ensures Encode(a + [r]) == Encode(a) + r.word + r.payload
  {
    if a == [] {
      assert a + [r] == [r] && [r][1..] == [];
    } else {
      EncodeEnd(a[1..], r);
      assert (a + [r])[1..] == a[1..] + [r] && (a + [r])[0] == a[0];
    }
  }

  lemma ContentOne(blk: Record)
    requires ValidRecord(blk)
    ensures Content([blk]) == ContentOf(blk)
  {
    assert [blk][1..] == [];
  }

  /** Removed blocks have no size. */
  ghost predicate Message(msg: seq<Record>)
  {
    AllValid(msg) && forall i :: 0 <= i < |msg| && TypeOf(Info(msg[i].word)) == HTX_BLK_UNUSED ==> msg[i].payload == []
  }

  // ---- Words ----

  /** The four bytes of a word in memory. */
  function Word(info: nat): (s: seq<byte>)
    requires info < 0x1_0000_0000
    ensures |s| == 4 && Info(s) == info
  {
    var x := info / 0x100;
    var y := x / 0x100;
    [info % 0x100, x % 0x100, y % 0x100, y / 0x100]
  }

  /** The record of some bytes of data. */
  function DataRecord(v: seq<byte>): Record
    requires |v| < 0x1000_0000
  {
    Record(Word(HTX_BLK_DATA * 0x1000_0000 + |v|), v)
  }

  lemma DataIsSmall(r: Record)
    requires ValidRecord(r) && IsData(r)
    ensures |r.payload| < 0x1000_0000
  {
  }

  lemma DataRecordIs(v: seq<byte>)
    requires 0 < |v| < 0x1000_0000
    ensures ValidRecord(DataRecord(v)) && IsData(DataRecord(v)) && ContentOf(DataRecord(v)) == Sent(v)
  {
  }

  // ---- Storing ----

  /** The part of c from the item i on that is offset bytes after the beginning: f bytes of the len asked for,
      fewer only if c ends or the next item does not fit. */
  ghost predicate IsPart(c: seq<Got>, i: nat, part: seq<Got>, offset: nat, len: nat, f: nat)
  {
    && i + |part| <= |c| && part == c[i..i + |part|] && Weight(part) == f <= len
    && (Weight(c[..i]) == offset || (i == |c| && Weight(c) < offset))
    && (f == len || i + |part| == |c| || Size(c[i + |part|]) > len - f)
  }

  /** The offset is within a block that is not data. */
  ghost predicate Splits(c: seq<Got>, offset: nat)
  {
    exists i :: 0 <= i < |c| && Weight(c[..i]) < offset < Weight(c[..i]) + Size(c[i])
  }

  /** The loop has passed what is before, and has kept the part of c from the item i on. */
  ghost predicate Keeping(c: seq<Got>, before: seq<Got>, part: seq<Got>, i: nat, offset0: nat, offset: nat,
      len0: nat, len: nat, f: nat)
  {
    && len + f == len0 && Weight(part) == f
    && if part == [] then Weight(before) + offset == offset0
       else
         && offset == 0 && i + |part| <= |c| && part == c[i..i + |part|] && Weight(c[..i]) == offset0
         && (len > 0 ==> before == c[..i + |part|])
  }

  lemma PartGrows(c: seq<Got>, before: seq<Got>, here: seq<Got>, rest: seq<Got>, part: seq<Got>, i: nat, at: nat,
      m: nat)
    requires c == before + here + rest && at + m <= |here| && i + |part| == |before| + at && part == c[i..i + |part|]
    ensures i + |part| + m <= |c| && part + here[at..at + m] == c[i..i + |part| + m]
    ensures c[..|before| + at] == before + here[..at]
    ensures at + m == |here| ==> before + here == c[..i + |part| + m]
  {
  }

  /** The next m items are kept. */
  lemma KeepMore(c: seq<Got>, before: seq<Got>, here: seq<Got>, rest: seq<Got>, part: seq<Got>, i: nat, offset0: nat,
      offset: nat, len0: nat, len: nat, f: nat, at: nat, m: nat, w: nat) returns (i': nat)
    requires Keeping(c, before, part, i, offset0, offset, len0, len, f) && 0 < len && c == before + here + rest
    requires 0 < m && at + m <= |here| && Weight(here[at..at + m]) == w <= len && (w < len ==> at + m == |here|)
    requires Weight(here[..at]) == offset && (part != [] ==> at == 0)
    ensures Keeping(c, before + here, part + here[at..at + m], i', offset0, 0, len0, len - w, f + w)
  {
    WeightSum(part, here[at..at + m]);
    i' := if part == [] then |before| + at else i;
    PartGrows(c, before, here, rest, part, i', at, m);
    if part == [] { WeightSum(before, here[..at]); }
  }

  /** Nothing more is kept: all has been, or nothing is left, or the next item does not fit. */
  lemma KeptAll(c: seq<Got>, before: seq<Got>, rest: seq<Got>, part: seq<Got>, i: nat, offset0: nat, offset: nat,
      len0: nat, len: nat, f: nat) returns (i': nat)
    requires Keeping(c, before, part, i, offset0, offset, len0, len, f) && c == before + rest
      && (part == [] ==> 0 < len)
    requires len == 0 || rest == [] || (offset == 0 && len < Size(rest[0]))
    ensures IsPart(c, i', part, offset0, len0, f)
  {
    i' := if part == [] then |before| else i;
    assert c[..|before|] == before && (rest == [] ==> c == before);
    assert rest != [] ==> c[|before|] == rest[0];
  }

  lemma ContentStep(rs: seq<Record>, n: nat)
    requires 0 < n <= |rs| && AllValid(rs)
    ensures Content(rs[..n]) == Content(rs[..n - 1]) + ContentOf(rs[n - 1])
  {
    assert rs[..n] == rs[..n - 1] + [rs[n - 1]];
    ContentOne(rs[n - 1]);
    ContentSum(rs[..n - 1], [rs[n - 1]]);
  }

  lemma ContentSplit(rs: seq<Record>, k: nat)
    requires k <= |rs| && AllValid(rs)
    ensures Content(rs) == Content(rs[..k]) + Content(rs[k..])
  {
    assert rs == rs[..k] + rs[k..];
    ContentSum(rs[..k], rs[k..]);
  }

  /** The content of a message around one of its blocks. */
  lemma Around(msg: seq<Record>, k: nat)
    requires AllValid(msg) && k < |msg|
    ensures Content(msg) == Content(msg[..k]) + ContentOf(msg[k]) + Content(msg[k + 1..])
    ensures Content(msg[..k + 1]) == Content(msg[..k]) + ContentOf(msg[k])
    ensures Weight(ContentOf(msg[k])) == |msg[k].payload|
    ensures Weight(Content(msg[..k + 1])) == Weight(Content(msg[..k])) + |msg[k].payload|
  {
    ContentStep(msg, k + 1);
    ContentSplit(msg, k + 1);
    WeightSum(Content(msg[..k]), ContentOf(msg[k]));
    WeightSent(msg[k].payload);
  }

  ghost predicate NoneEmpty(rs: seq<Record>)
  {
    forall k :: 0 <= k < |rs| ==> rs[k].payload != []
  }

  lemma OneMore(rs: seq<Record>, r: Record)
    requires AllValid(rs) && ValidRecord(r)
    ensures AllValid(rs + [r]) && Content(rs + [r]) == Content(rs) + ContentOf(r)
    ensures Encode(rs + [r]) == Encode(rs) + (r.word + r.payload)
    ensures NoneEmpty(rs) && r.payload != [] ==> NoneEmpty(rs + [r])
  {
    ContentOne(r);
    ContentSum(rs, [r]);
    EncodeEnd(rs, r);
  }

  /** The bytes v of a block of data, as items of its content and as a record. */
  lemma DataPiece(blk: Record, offset: nat, v: seq<byte>)
    requires ValidRecord(blk) && IsData(blk) && 0 < |v| && offset + |v| <= |blk.payload|
      && v == blk.payload[offset..offset + |v|]
    ensures |v| < 0x1000_0000 && ValidRecord(DataRecord(v))
    ensures var here := ContentOf(blk);
      && |here| == |blk.payload| && here[offset..offset + |v|] == ContentOf(DataRecord(v))
      && Weight(here[..offset]) == offset && Weight(here[offset..offset + |v|]) == |v|
  {
    DataIsSmall(blk);
    DataRecordIs(v);
    WeightSent(blk.payload[..offset]);
    WeightSent(v);
    assert Sent(blk.payload)[..offset] == Sent(blk.payload[..offset]);
    assert Sent(blk.payload)[offset..offset + |v|] == Sent(v);
  }

  /** Bytes of data from the offset on are kept, all or as many as are asked for. */
  lemma KeepData(c: seq<Got>, before: seq<Got>, blk: Record, rest: seq<Got>, part: seq<Got>, i: nat, offset0: nat,
      offset: nat, len0: nat, len: nat, f: nat, v: seq<byte>) returns (i': nat)
    requires ValidRecord(blk) && IsData(blk) && 0 < |v| && offset + |v| <= |blk.payload|
      && v == blk.payload[offset..offset + |v|]
    requires Keeping(c, before, part, i, offset0, offset, len0, len, f) && 0 < len
      && c == before + ContentOf(blk) + rest
    requires |v| == len || (|v| < len && offset + |v| == |blk.payload|)
    ensures |v| < 0x1000_0000 && ValidRecord(DataRecord(v))
    ensures Keeping(c, before + ContentOf(blk), part + ContentOf(DataRecord(v)), i', offset0, 0, len0, len - |v|,
      f + |v|)
  {
    DataPiece(blk, offset, v);
    i' := KeepMore(c, before, ContentOf(blk), rest, part, i, offset0, offset, len0, len, f, offset, |v|, |v|);
  }

  /** Another block is kept whole. */
  lemma KeepBlock(c: seq<Got>, before: seq<Got>, blk: Record, rest: seq<Got>, part: seq<Got>, i: nat, offset0: nat,
      len0: nat, len: nat, f: nat) returns (i': nat)
    requires ValidRecord(blk) && !IsData(blk) && 0 < |blk.payload| <= len
    requires Keeping(c, before, part, i, offset0, 0, len0, len, f) && c == before + ContentOf(blk) + rest
    ensures Keeping(c, before + ContentOf(blk), part + ContentOf(blk), i', offset0, 0, len0, len - |blk.payload|,
      f + |blk.payload|)
  {
    var here := ContentOf(blk);
    assert here[0..1] == here && here[..0] == [];
    i' := KeepMore(c, before, here, rest, part, i, offset0, 0, len0, len, f, 0, 1, |blk.payload|);
  }

  /** A block that ends before the offset, or has no size. */
  lemma KeepSkips(c: seq<Got>, before: seq<Got>, blk: Record, part: seq<Got>, i: nat, offset0: nat, offset: nat,
      len0: nat, len: nat, f: nat)
    requires ValidRecord(blk) && |blk.payload| <= offset && Keeping(c, before, part, i, offset0, offset, len0, len, f)
    ensures Keeping(c, before + ContentOf(blk), part, i, offset0, offset - |blk.payload|, len0, len, f)
  {
    WeightSum(before, ContentOf(blk));
    WeightSent(blk.payload);
    assert blk.payload == [] ==> before + ContentOf(blk) == before;
  }

  /** The offset is within a block that cannot be cut. */
  lemma CannotCut(msg: seq<Record>, k: nat, offset0: nat, offset: nat)
    requires AllValid(msg) && k < |msg| && Weight(Content(msg[..k])) + offset == offset0
      && 0 < offset < |msg[k].payload| && !IsData(msg[k])
    ensures Splits(Content(msg), offset0)
  {
    var c, before := Content(msg), Content(msg[..k]);
    Around(msg, k);
    assert c[..|before|] == before && c[|before|] == ContentOf(msg[k])[0];
  }

  lemma WeightGrows(c: seq<Got>, a: nat, b: nat)
    requires a <= b <= |c|
    ensures Weight(c[..a]) <= Weight(c[..b])
  {
    assert c[..b] == c[..a] + c[a..b];
    WeightSum(c[..a], c[a..b]);
  }

  /** A part begins between two items, so not within one. */
  lemma PartDoesNotSplit(c: seq<Got>, i: nat, part: seq<Got>, offset: nat, len: nat, f: nat)
    requires IsPart(c, i, part, offset, len, f)
    ensures !Splits(c, offset)
  {
    forall j | 0 <= j < |c| ensures !(Weight(c[..j]) < offset < Weight(c[..j]) + Size(c[j])) {
      assert c[..j + 1] == c[..j] + [c[j]] && Weight([c[j]]) == Size(c[j]);
      WeightSum(c[..j], [c[j]]);
      if i <= j { WeightGrows(c, i, j); } else { WeightGrows(c, j + 1, i); }
      assert c[..|c|] == c;
    }
  }

  lemma Rest(msg: seq<Record>, k: nat, rs: seq<Record>, i: nat, offset0: nat, offset: nat, len0: nat, len: nat,
      f: nat) returns (i': nat)
    requires AllValid(msg) && k <= |msg| && AllValid(rs) && 0 < len0
    requires Keeping(Content(msg), Content(msg[..k]), Content(rs), i, offset0, offset, len0, len, f)
    requires len == 0 || k == |msg| || (offset == 0 && !IsData(msg[k]) && len < |msg[k].payload|)
    ensures IsPart(Content(msg), i', Content(rs), offset0, len0, f) && !Splits(Content(msg), offset0)
  {
    assert msg[..k] + msg[k..] == msg;
    ContentSum(msg[..k], msg[k..]);
    i' := KeptAll(Content(msg), Content(msg[..k]), Content(msg[k..]), Content(rs), i, offset0, offset, len0, len, f);
    PartDoesNotSplit(Content(msg), i', Content(rs), offset0, len0, f);
  }

  /** What is stored of one block: of data as much as is asked for, and else all or, if it is too large or has
      been sent in part, nothing. */
  method TakeBlk(blk: Record, offset: nat, len: nat, ghost c: seq<Got>, ghost before: seq<Got>, ghost rest: seq<Got>,
      ghost part: seq<Got>, ghost i: nat, ghost offset0: nat, ghost len0: nat, ghost f: nat)
    returns (record: Option<seq<byte>>, n: nat, ghost r: Record, ghost i': nat)
    requires ValidRecord(blk) && offset < |blk.payload| && 0 < len
    requires Keeping(c, before, part, i, offset0, offset, len0, len, f) && c == before + ContentOf(blk) + rest
    ensures record.None? <==> !IsData(blk) && (offset > 0 || |blk.payload| > len)
    ensures record.None? ==> i' == i
    ensures record.Some? ==>
      && ValidRecord(r) && 0 < n == |r.payload| <= len && record.value == r.word + r.payload
      && Keeping(c, before + ContentOf(blk), part + ContentOf(r), i', offset0, 0, len0, len - n, f + n)
  {
    n, r, i' := |blk.payload|, blk, i;
    if TypeOf(Info(blk.word)) == HTX_BLK_DATA {
      var v := blk.payload[offset..];
      if |v| > len { v := v[..len]; }
      i' := KeepData(c, before, blk, rest, part, i, offset0, offset, len0, len, f, v);
      n, r := |v|, DataRecord(v);
      record := Some(Word(HTX_BLK_DATA * 0x1000_0000 + |v|) + v);
    } else if offset > 0 || |blk.payload| > len {
      record := None;
    } else {
      i' := KeepBlock(c, before, blk, rest, part, i, offset0, len0, len, f);
      record := Some(blk.word + blk.payload);
    }
  }

  /** cache_store_http_payload: the bytes to append, and how many of the message's they stand for; None if the
      message is not to be cached, for lack of room or because it cannot be cut there. */
  method StorePayload(msg: seq<Record>, offset0: nat, len0: nat, room: bool)
    returns (trash: Option<seq<byte>>, to_forward: nat, ghost rs: seq<Record>, ghost i: nat)
    requires Message(msg)
    ensures trash.None? <==> len0 > 0 && (!room || Splits(Content(msg), offset0))
    ensures trash.None? ==> to_forward == len0
    ensures trash.Some? && len0 == 0 ==> trash.value == [] && to_forward == 0
    ensures trash.Some? && len0 > 0 ==>
      && AllValid(rs) && NoneEmpty(rs) && trash.value == Encode(rs)
      && IsPart(Content(msg), i, Content(rs), offset0, len0, to_forward)
  {
    var offset: nat, len: nat, blk: nat := offset0, len0, 0;
    trash, to_forward, rs, i := Some([]), 0, [], 0;
    if len == 0 { return; }
    ghost var c := Content(msg);
    assert msg[..0] == [];
    ghost var before, part: seq<Got> := [], [];
    while blk < |msg| && len > 0
      invariant blk <= |msg| && before == Content(msg[..blk]) && AllValid(rs) && part == Content(rs)
      invariant Keeping(c, before, part, i, offset0, offset, len0, len, to_forward)
      invariant trash.Some? && trash.value == Encode(rs) && NoneEmpty(rs)
    {
      var sz := |msg[blk].payload|;
      Around(msg, blk);
      ghost var here, rest := ContentOf(msg[blk]), Content(msg[blk + 1..]);
      if offset >= sz {
        KeepSkips(c, before, msg[blk], part, i, offset0, offset, len0, len, to_forward);
        offset := offset - sz;
        blk, before := blk + 1, before + here;
        continue;
      }
      var record, n;
      ghost var r;
      record, n, r, i := TakeBlk(msg[blk], offset, len, c, before, rest, part, i, offset0, len0, to_forward);
      if record.None? {
        if offset > 0 {
          CannotCut(msg, blk, offset0, offset);
          trash, to_forward := None, len0;
          return;
        }
        break;
      }
      OneMore(rs, r);
      trash := Some(trash.value + record.value);
      rs, part := rs + [r], part + ContentOf(r);
      to_forward := to_forward + n;
      len := len - n;
      offset := 0;
      blk, before := blk + 1, before + here;
    }
    i := Rest(msg, blk, rs, i, offset0, offset, len0, len, to_forward);
    if !room { trash, to_forward := None, len0; }
  }

  // ---- Parts stored one after the other, and what comes back ----

  lemma {:induction false} SizesPositive(rs: seq<Record>)
    requires AllValid(rs)
    ensures forall k :: 0 <= k < |Content(rs)| ==> Size(Content(rs)[k]) > 0
  {
    if rs != [] { SizesPositive(rs[1..]); }
  }

  lemma PlaceOf(c: seq<Got>, a: nat, b: nat)
    requires a <= |c| && b <= |c| && Weight(c[..a]) == Weight(c[..b]) && forall k :: 0 <= k < |c| ==> Size(c[k]) > 0
    ensures a == b
  {
    var x, y := if a <= b then a else b, if a <= b then b else a;
    if x < y {
      assert c[..x + 1] == c[..x] + [c[x]] && Weight([c[x]]) == Size(c[x]);
      WeightSum(c[..x], [c[x]]);
      WeightGrows(c, x + 1, y);
    }
  }

  lemma PartEnds(c: seq<Got>, i: nat, part: seq<Got>, offset: nat, len: nat, f: nat)
    requires IsPart(c, i, part, offset, len, f)
    ensures Weight(c[..i]) == offset ==> Weight(c[..i + |part|]) == offset + f <= Weight(c)
    ensures Weight(c[..i]) != offset ==> part == [] && f == 0
  {
    assert c[..i + |part|] == c[..i] + part;
    WeightSum(c[..i], part);
    WeightGrows(c, i + |part|, |c|);
    assert c[..|c|] == c;
  }

  lemma PartBegins(c: seq<Got>, i: nat, a: seq<Got>, offset: nat, len: nat, f: nat, j: nat, b: seq<Got>, len': nat,
      f': nat)
    requires IsPart(c, i, a, offset, len, f) && IsPart(c, j, b, offset + f, len', f')
      && forall k :: 0 <= k < |c| ==> Size(c[k]) > 0
    ensures j == i + |a|
  {
    PartEnds(c, i, a, offset, len, f);
    PartEnds(c, j, b, offset + f, len', f');
    if Weight(c[..i]) == offset { PlaceOf(c, j, i + |a|); }
  }

  lemma Adjacent(c: seq<Got>, i: nat, p: nat, q: nat)
    requires i <= p <= q <= |c|
    ensures c[i..q] == c[i..p] + c[p..q]
  {
  }

  lemma JoinAt(c: seq<Got>, i: nat, a: seq<Got>, offset: nat, len: nat, f: nat, b: seq<Got>, len': nat, f': nat)
    requires IsPart(c, i, a, offset, len, f) && IsPart(c, i + |a|, b, offset + f, len', f')
    ensures IsPart(c, i, a + b, offset, f + len', f + f')
  {
    var p, q := i + |a|, i + |a| + |b|;
    PartEnds(c, i, a, offset, len, f);
    PartEnds(c, p, b, offset + f, len', f');
    WeightSum(a, b);
    Adjacent(c, i, p, q);
    assert |a + b| == q - i && c[i..q] == a + b;
    assert Weight(c[..i]) == offset || (i == |c| && Weight(c) < offset);
  }

  /** A part of a message and the next one, stored by a second call, are together one part. */
  lemma PartsJoin(msg: seq<Record>, i: nat, a: seq<Got>, offset: nat, len: nat, f: nat, j: nat, b: seq<Got>,
      len': nat, f': nat)
    requires AllValid(msg) && IsPart(Content(msg), i, a, offset, len, f)
      && IsPart(Content(msg), j, b, offset + f, len', f')
    ensures IsPart(Content(msg), i, a + b, offset, f + len', f + f')
  {
    SizesPositive(msg);
    var c := Content(msg);
    PartBegins(c, i, a, offset, len, f, j, b, len', f');
    JoinAt(c, i, a, offset, len, f, b, len', f');
  }

  /** Every payload but that of data lies within one block of the row. */
  ghost predicate AllFit(rs: seq<Record>, n: nat, q: nat, size: nat)
    requires n <= |rs| && size > 0
  {
    forall k :: 0 <= k < n && !IsData(rs[k]) ==> Fits(q + Stored(rs, k) + 4, |rs[k].payload|, size)
  }

  lemma OneReadsBack(r: Record, place: nat, size: nat, g: seq<Got>)
    requires ValidRecord(r) && r.payload != [] && size > 0 && (IsData(r) || Fits(place, |r.payload|, size))
    requires Delivered(g, if IsData(r) then Octets(r.payload)
      else [WantBlock(Info(r.word), r.payload, Fits(place, |r.payload|, size))])
    ensures g == ContentOf(r)
  {
  }

  lemma DeliveredSplit(got: seq<Got>, w: seq<Want>, last: seq<Want>)
    requires Delivered(got, w + last)
    ensures |w| <= |got| && Delivered(got[..|w|], w) && Delivered(got[|w|..], last) && got == got[..|w|] + got[|w|..]
  {
    assert forall i :: 0 <= i < |last| ==> (w + last)[|w| + i] == last[i];
  }

  /** What has been delivered last, and what before. */
  lemma LastDelivered(got: seq<Got>, w: seq<Want>, last: seq<Want>, r: Record, place: nat, size: nat)
    requires ValidRecord(r) && r.payload != [] && size > 0 && (IsData(r) || Fits(place, |r.payload|, size))
    requires last == if IsData(r) then Octets(r.payload)
             else [WantBlock(Info(r.word), r.payload, Fits(place, |r.payload|, size))]
    requires Delivered(got, w + last)
    ensures |w| <= |got| && Delivered(got[..|w|], w) && got == got[..|w|] + ContentOf(r)
  {
    DeliveredSplit(got, w, last);
    OneReadsBack(r, place, size, got[|w|..]);
  }

  /** What has been delivered once all has been read is the content of what was stored. */
  lemma {:induction false} ReadsBack(rs: seq<Record>, n: nat, q: nat, size: nat, got: seq<Got>)
    requires n <= |rs| && AllValid(rs) && NoneEmpty(rs) && size > 0 && AllFit(rs, n, q, size)
      && Delivered(got, Wanted(rs, n, q, size))
    ensures got == Content(rs[..n])
  {
    if n == 0 {
      assert rs[..0] == [];
    } else {
      var r, w, place := rs[n - 1], Wanted(rs, n - 1, q, size), q + Stored(rs, n - 1) + 4;
      var last := if IsData(r) then Octets(r.payload)
        else [WantBlock(Info(r.word), r.payload, Fits(place, |r.payload|, size))];
      LastDelivered(got, w, last, r, place, size);
      ReadsBack(rs, n - 1, q, size, got[..|w|]);
      ContentStep(rs, n);
    }
  }
}
