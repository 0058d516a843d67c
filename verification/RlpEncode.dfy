/** The encoder's buffer (encbuffer.go): values are written in one pass, with the list headers kept apart
    until their sizes are known, and the output interleaves the two. */
module RlpEncode {
  import opened Machine
  import opened Bytes
  import opened RlpSpec
  import opened RlpHeaders

  datatype Listhead = Listhead(offset: nat, size: u64)

  function ListHeader(size: nat): (h: seq<u8>)
    ensures |h| >= 1
  {
    Header(0xC0, 0xF7, size)
  }

  // ---------- What a buffer stands for ----------

  /** The headers are in order of their place in the string data. */
  ghost predicate Ordered(heads: seq<Listhead>, from: nat, to: nat) {
    && from <= to
    && (heads != [] ==> from <= heads[0].offset && Ordered(heads[1..], heads[0].offset, to))
  }

  /** The string data from `from` on with the headers put in. */
  ghost function Render(str: seq<u8>, heads: seq<Listhead>, from: nat): seq<u8>
    requires Ordered(heads, from, |str|)
  {
    if heads == [] then str[from..]
    else
      OrderedBound(heads[1..], heads[0].offset, |str|);
      str[from..heads[0].offset] + ListHeader(heads[0].size) + Render(str, heads[1..], heads[0].offset)
  }

  /** A list that is being written: the encoding of its contents so far, and the index of its header. */
  datatype Frame = Frame(content: seq<u8>, index: nat)

  /** The buffer holds these frames, innermost last; frames[0] is the output outside of any list. What is
      in front of an open list is the buffer as it was when that list was opened, which the list's
      unfinished header records. */
  ghost predicate Holds(frames: seq<Frame>, str: seq<u8>, heads: seq<Listhead>, lhsize: nat)
    decreases |frames|
  {
    && frames != []
    && var f := frames[|frames| - 1];
      if |frames| == 1 then
        Ordered(heads, 0, |str|) && f.content == Render(str, heads, 0) && |f.content| == |str| + lhsize
      else
        && f.index < |heads|
        && var (before, offset, saved) := (heads[..f.index], heads[f.index].offset, heads[f.index].size);
          && offset <= |str| && saved <= lhsize
          && Ordered(heads[f.index + 1..], offset, |str|)
          && f.content == Render(str, heads[f.index + 1..], offset)
          && |f.content| == (|str| - offset) + (lhsize - saved)
          && Holds(frames[..|frames| - 1], str[..offset], before, saved)
  }

  /** More string data goes to the end of the output. */
  lemma {:induction false} RenderAppend(str: seq<u8>, heads: seq<Listhead>, from: nat, b: seq<u8>)
    requires Ordered(heads, from, |str|)
    ensures Ordered(heads, from, |str + b|) && Render(str + b, heads, from) == Render(str, heads, from) + b
  {
    if heads == [] {
      assert (str + b)[from..] == str[from..] + b;
    } else {
      RenderAppend(str, heads[1..], heads[0].offset, b);
      OrderedBound(heads[1..], heads[0].offset, |str|);
      assert (str + b)[from..heads[0].offset] == str[from..heads[0].offset];
    }
  }

  lemma {:induction false} OrderedBound(heads: seq<Listhead>, from: nat, to: nat)
    requires Ordered(heads, from, to)
    ensures from <= to
  {
  }

  lemma {:induction false} OrderedHead(heads: seq<Listhead>, from: nat, to: nat)
    requires heads != []
    ensures Ordered(heads, from, to) <==> from <= to && from <= heads[0].offset && Ordered(heads[1..], heads[0].offset, to)
  {
  }

  lemma {:induction false} RenderHead(str: seq<u8>, heads: seq<Listhead>, from: nat)
    requires heads != [] && Ordered(heads, from, |str|)
    ensures Ordered(heads[1..], heads[0].offset, |str|) && from <= heads[0].offset <= |str|
    ensures Render(str, heads, from)
      == str[from..heads[0].offset] + ListHeader(heads[0].size) + Render(str, heads[1..], heads[0].offset)
  {
  }

  lemma {:induction false} RenderNone(str: seq<u8>, from: nat)
    requires from <= |str|
    ensures Ordered([], from, |str|) && Render(str, [], from) == str[from..]
  {
  }

  /** A finished list between what came before it and nothing after it. */
  lemma {:induction false} RenderNest(str: seq<u8>, before: seq<Listhead>, from: nat, h: Listhead, after: seq<Listhead>)
    requires h.offset <= |str| && Ordered(before, from, h.offset) && Ordered(after, h.offset, |str|)
    ensures Ordered(before + [h] + after, from, |str|)
    ensures Render(str, before + [h] + after, from)
      == Render(str[..h.offset], before, from) + ListHeader(h.size) + Render(str, after, h.offset)
  {
    hide ListHeader, Render, Ordered;
    var all := before + [h] + after;
    if before == [] {
      assert all[0] == h && all[1..] == after;
      OrderedBound(before, from, h.offset);
      SliceOfSlice(str, 0, h.offset, from, h.offset);
      RenderNone(str[..h.offset], from);
      RenderHead(str, all, from);
      OrderedHead(all, from, |str|);
    } else {
      var g, rest := before[0], before[1..];
      OrderedHead(before, from, h.offset);
      RenderNest(str, rest, g.offset, h, after);
      assert all[0] == g && all[1..] == rest + [h] + after;
      OrderedBound(rest, g.offset, h.offset);
      OrderedHead(all, from, |str|);
      RenderHead(str, all, from);
      RenderHead(str[..h.offset], before, from);
      SliceOfSlice(str, 0, h.offset, from, g.offset);
      Group(str[from..g.offset] + ListHeader(g.size), Render(str[..h.offset], rest, g.offset), ListHeader(h.size),
        Render(str, after, h.offset));
    }
  }

  lemma {:induction false} Group(a: seq<u8>, b: seq<u8>, c: seq<u8>, d: seq<u8>)
    ensures a + (b + c + d) == (a + b) + c + d
  {
  }

  /** Writing string data adds it to the innermost frame. */
  lemma {:induction false} HoldsAppend(frames: seq<Frame>, str: seq<u8>, heads: seq<Listhead>, lhsize: nat, b: seq<u8>)
    requires Holds(frames, str, heads, lhsize)
    ensures Holds(Extend(frames, b), str + b, heads, lhsize)
  {
    var f := frames[|frames| - 1];
    assert Extend(frames, b)[..|frames| - 1] == frames[..|frames| - 1];
    if |frames| == 1 {
      RenderAppend(str, heads, 0, b);
    } else {
      var offset := heads[f.index].offset;
      RenderAppend(str, heads[f.index + 1..], offset, b);
      assert (str + b)[..offset] == str[..offset];
    }
  }

  /** The innermost frame with more content. */
  function Extend(frames: seq<Frame>, b: seq<u8>): (r: seq<Frame>)
    requires frames != []
    ensures |r| == |frames|
  {
    var f := frames[|frames| - 1];
    frames[|frames| - 1 := Frame(f.content + b, f.index)]
  }

  /** The frames after the innermost list is finished: its header and contents go to the frame around it. */
  function Finish(frames: seq<Frame>): (r: seq<Frame>)
    requires |frames| > 1
  {
    var content := frames[|frames| - 1].content;
    Extend(frames[..|frames| - 1], ListHeader(|content|) + content)
  }

  lemma {:induction false} HoldsOpen(frames: seq<Frame>, str: seq<u8>, heads: seq<Listhead>, lhsize: nat)
    requires Holds(frames, str, heads, lhsize) && lhsize < TWO64
    ensures Holds(frames + [Frame([], |heads|)], str, heads + [Listhead(|str|, lhsize)], lhsize)
  {
    var more, all := frames + [Frame([], |heads|)], heads + [Listhead(|str|, lhsize)];
    assert all[..|heads|] == heads && all[|heads| + 1..] == [] && str[..|str|] == str;
    assert more[..|frames|] == frames;
  }

  /** Finishing the innermost list: the recorded size becomes the length of the contents. */
  lemma {:induction false} HoldsFinish(frames: seq<Frame>, str: seq<u8>, heads: seq<Listhead>, lhsize: nat)
    requires Holds(frames, str, heads, lhsize) && |frames| > 1 && |frames[|frames| - 1].content| < TWO64
    ensures var f := frames[|frames| - 1];
      var (offset, size) := (heads[f.index].offset, |f.content|);
      size == |str| + lhsize - offset - heads[f.index].size
      && Holds(Finish(frames), str, heads[f.index := Listhead(offset, size)], lhsize + |ListHeader(size)|)
  {
    hide ListHeader, Render, Ordered;
    var f := frames[|frames| - 1];
    var (before, offset, saved, after) := (heads[..f.index], heads[f.index].offset, heads[f.index].size, heads[f.index + 1..]);
    var done := Listhead(offset, |f.content|);
    var outer := frames[..|frames| - 1];
    var g := outer[|outer| - 1];
    var heads' := heads[f.index := done];
    assert heads' == before + [done] + after;
    assert Finish(frames)[..|outer| - 1] == outer[..|outer| - 1];
    if |outer| == 1 {
      RenderNest(str, before, 0, done, after);
    } else {
      var mid := before[g.index + 1..];
      RenderNest(str, mid, before[g.index].offset, done, after);
      assert heads'[g.index + 1..] == mid + [done] + after;
      assert heads'[..g.index] == before[..g.index];
      assert str[..offset][..before[g.index].offset] == str[..before[g.index].offset];
    }
  }

  // ---------- The buffer ----------

  const MAXINT := 0x8000_0000_0000_0000

  class EncBuffer {
    var str: seq<u8>              // string data, everything except list headers
    var lheads: seq<Listhead>     // all list headers
    var lhsize: nat               // sum of the sizes of all finished list headers
    const sizebuf: array<u8>      // scratch space for one header
    ghost var frames: seq<Frame>

    ghost predicate Valid()
      reads this
    {
      sizebuf.Length == 9 && Holds(frames, str, lheads, lhsize)
    }

    /** The output, once no list is open. */
    ghost function Output(): seq<u8>
      reads this
      requires Valid()
    {
      frames[0].content
    }

    /** The frames have been extended by b and nothing else has changed for the caller. */
    ghost predicate Wrote(frames0: seq<Frame>, size0: nat, b: seq<u8>)
      reads this
    {
      Valid() && frames0 != [] && frames == Extend(frames0, b) && |str| + lhsize == size0 + |b|
    }

    constructor ()
      ensures Valid() && fresh(sizebuf) && frames == [Frame([], 0)]
    {
      str, lheads, lhsize := [], [], 0;
      sizebuf := new u8[9];
      frames := [Frame([], 0)];
    }

    function Size(): (n: nat)
      reads this
      ensures Valid() && |frames| == 1 ==> n == |Output()|
    {
      |str| + lhsize
    }

    /** Appends to the output as it is. */
    method Write(b: seq<u8>)
      requires Valid()
      modifies this`str, this`frames
      ensures Wrote(old(frames), old(Size()), b)
    {
      HoldsAppend(frames, str, lheads, lhsize, b);
      str := str + b;
      frames := Extend(frames, b);
    }

    method WriteBool(b: bool)
      requires Valid()
      modifies this`str, this`frames
      ensures Wrote(old(frames), old(Size()), Enc(Str(IntBytes(if b then 1 else 0))))
    {
      SmallUint(if b then 1 else 0);
      hide Enc, Holds;
      if b {
        Write([0x01]);
      } else {
        Write([0x80]);
      }
    }

    method WriteUint64(i: u64)
      requires Valid()
      modifies this`str, this`frames, sizebuf
      ensures Wrote(old(frames), old(Size()), Enc(Str(IntBytes(i))))
    {
      SmallUint(i);
      hide Enc, Holds;
      if i == 0 {
        Write([0x80]);
      } else if i < 128 {
        Write([i]);
      } else {
        SizeBytes(i);
        var n := PutInt(sizebuf, 1, i);
        sizebuf[0] := (0x80 + n) % 0x100;
        assert sizebuf[..n + 1] == [sizebuf[0]] + IntBytes(i);
        Write(sizebuf[..n + 1]);
      }
    }

    method WriteBytes(b: seq<u8>)
      requires Valid() && |b| < MAXINT
      modifies this`str, this`frames, sizebuf
      ensures Wrote(old(frames), old(Size()), Enc(Str(b)))
    {
      hide Holds, Header;
      if |b| == 1 && b[0] <= 0x7F {
        assert b == [b[0]];
        Write([b[0]]);
      } else {
        EncodeStringHeader(|b|);
        Write(b);
        ExtendTwice(old(frames), Header(0x80, 0xB7, |b|), b);
      }
    }

    method EncodeStringHeader(size: u64)
      requires Valid()
      modifies this`str, this`frames, sizebuf
      ensures Wrote(old(frames), old(Size()), Header(0x80, 0xB7, size))
    {
      hide Holds;
      if size < 56 {
        Write([(0x80 + size % 0x100) % 0x100]);
      } else {
        SizeBytes(size);
        var sizesize := PutInt(sizebuf, 1, size);
        sizebuf[0] := (0xB7 + sizesize) % 0x100;
        assert sizebuf[..sizesize + 1] == [sizebuf[0]] + IntBytes(size);
        Write(sizebuf[..sizesize + 1]);
      }
    }

    /** Opens a list. The unfinished header keeps the sum of the header sizes so far. */
    method List() returns (index: nat)
      requires Valid() && Size() < MAXINT
      modifies this`lheads, this`frames
      ensures Valid() && Size() == old(Size())
      ensures frames == old(frames) + [Frame([], index)] && index < |lheads|
    {
      HoldsOpen(frames, str, lheads, lhsize);
      frames := frames + [Frame([], |lheads|)];
      lheads := lheads + [Listhead(|str|, lhsize)];
      index := |lheads| - 1;
    }

    /** Finishes the innermost list, which was opened with this index. */
    method ListEnd(index: nat)
      requires Valid() && Size() < MAXINT
      requires |frames| > 1 && index == frames[|frames| - 1].index
      modifies this`lheads, this`frames, this`lhsize
      ensures Valid() && frames == Finish(old(frames))
      ensures index < |lheads| && lheads[index].size == |old(frames)[|old(frames)| - 1].content|
      ensures Size() == old(Size()) + |ListHeader(lheads[index].size)|
    {
      var lh := lheads[index];
      var size: nat := Size() - lh.offset - lh.size;
      HoldsFinish(frames, str, lheads, lhsize);
      lheads := lheads[index := Listhead(lh.offset, size)];
      if size < 56 {
        lhsize := lhsize + 1;
      } else {
        var n := IntSize(size);
        lhsize := lhsize + (1 + n);
      }
      frames := Finish(frames);
    }

    /** The writer of an untyped value: a string, or a list of such values. */
    method WriteItem(v: Item)
      requires Valid() && Size() + |Enc(v)| < MAXINT
      modifies this, sizebuf
      ensures Wrote(old(frames), old(Size()), Enc(v))
      decreases v, 0
    {
      hide Enc, Holds;
      EncShape(v);
      match v {
        case Str(b) =>
          WriteBytes(b);
        case List(items) =>
          WriteItems(items);
      }
    }

    method WriteItems(items: seq<Item>)
      requires Valid() && Size() + |Enc(Item.List(items))| < MAXINT
      modifies this, sizebuf
      ensures Wrote(old(frames), old(Size()), Enc(Item.List(items)))
      decreases items, 1
    {
      hide Enc, Holds, EncAll;
      HoldsSome(frames, str, lheads, lhsize);
      EncOfList(items);
      if |items| == 0 {
        Write([0xC0]);
        return;
      }
      ghost var frames0, size0 := frames, Size();
      var listOffset := List();
      for i := 0 to |items|
        invariant Valid() && frames == frames0 + [Frame(EncAll(items[..i]), listOffset)]
        invariant Size() == size0 + |EncAll(items[..i])|
      {
        EncAllSplit(items, i);
        WriteItem(items[i]);
      }
      assert items[..|items|] == items;
      assert (frames0 + [Frame(EncAll(items), listOffset)])[..|frames0|] == frames0;
      ListEnd(listOffset);
    }

    /** Copies the output to dst[at..]. */
    method CopyTo(dst: array<u8>, at: nat)
      requires Valid() && |frames| == 1 && Size() < MAXINT
      requires at + Size() <= dst.Length
      modifies dst
      ensures Valid() && dst[..] == Overwrite(old(dst[..]), at, Output())
    {
      ProgressStart(frames, str, lheads, lhsize);
      hide Holds, Progress;
      Interleave(dst, at, str, lheads, Output());
    }

    method MakeBytes() returns (out: seq<u8>)
      requires Valid() && |frames| == 1 && Size() < MAXINT
      ensures out == Output() && |out| == Size()
    {
      var dst := new u8[Size()];
      OverwriteAll(dst[..], Output());
      CopyTo(dst, 0);
      out := dst[..];
    }

    /** Writes the output to w, stopping at the first error: w has then received as much as it took. */
    method WriteTo(w: Sink) returns (ok: bool)
      requires Valid() && |frames| == 1 && Size() < MAXINT
      modifies w, sizebuf
      ensures Valid() && ok == (|Output()| <= old(w.room))
      ensures Sent(old(w.out), old(w.room), Output(), w.out, w.room)
    {
      ghost var out0, room0, out := w.out, w.room, Output();
      ProgressStart(frames, str, lheads, lhsize);
      SentNothing(out0, room0);
      hide Piece, Holds, Progress, Sent, Starts;
      var strpos: nat := 0;
      ghost var done: seq<u8> := [];
      var i := 0;
      while i < |lheads|
        invariant i <= |lheads| && Progress(str, lheads, i, strpos, done, out)
        invariant Sent(out0, room0, done, w.out, w.room) && |done| <= room0
      {
        ProgressStep(str, lheads, i, strpos, done, out);
        ghost var p := Piece(str, lheads[i], strpos);
        ghost var out1, room1 := w.out, w.room;
        strpos, ok := WritePiece(w, strpos, lheads[i]);
        SentTwice(out0, room0, done, out1, room1, p, w.out, w.room);
        if !ok {
          SentShort(out0, room0, done + p, out, w.out, w.room);
          return;
        }
        done := done + p;
        i := i + 1;
      }
      ProgressEnd(str, lheads, strpos, done, out);
      SentWhole(out0, room0, done, w.out, w.room);
      ok := true;
      ghost var out1, room1 := w.out, w.room;
      if strpos < |str| {
        var n;
        n, ok := w.Write(str[strpos..]);
      } else {
        SentNothing(out1, room1);
      }
      SentTwice(out0, room0, done, out1, room1, str[strpos..], w.out, w.room);
    }

    /** The part of writeTo that concerns one header: the string data in front of it, if any, and the
        header, through sizebuf. */
    method WritePiece(w: Sink, strpos: nat, head: Listhead) returns (strpos': nat, ok: bool)
      requires sizebuf.Length == 9 && strpos <= head.offset <= |str|
      modifies w, sizebuf
      ensures Sent(old(w.out), old(w.room), Piece(str, head, strpos), w.out, w.room)
      ensures ok == (|Piece(str, head, strpos)| <= old(w.room)) && (ok ==> strpos' == head.offset)
    {
      ghost var data := str[strpos..head.offset];
      hide Header, ListHeader, Sent;
      ghost var out0, room0 := w.out, w.room;
      var n: nat;
      strpos', ok := strpos, true;
      SentNothing(out0, room0);
      if head.offset - strpos > 0 {
        n, ok := w.Write(str[strpos..head.offset]);
        strpos' := strpos + n;
      }
      assert Sent(out0, room0, data, w.out, w.room);
      if !ok {
        SentShort(out0, room0, data, Piece(str, head, strpos), w.out, w.room);
        return;
      }
      ghost var out1, room1 := w.out, w.room;
      SentWhole(out0, room0, data, out1, room1);
      var enc := EncodeHead(sizebuf, head);
      n, ok := w.Write(enc);
      SentTwice(out0, room0, data, out1, room1, enc, w.out, w.room);
    }
  }

  /** A writer that had `out0` and room for `room0` more has been given x, and has taken what it could. */
  ghost predicate Sent(out0: seq<u8>, room0: nat, x: seq<u8>, out: seq<u8>, room: nat) {
    var n := Min(|x|, room0);
    out == out0 + x[..n] && room == room0 - n
  }

  lemma {:induction false} SentNothing(out0: seq<u8>, room0: nat)
    ensures Sent(out0, room0, [], out0, room0)
  {
  }

  lemma {:induction false} SentWhole(out0: seq<u8>, room0: nat, x: seq<u8>, out: seq<u8>, room: nat)
    requires Sent(out0, room0, x, out, room)
    ensures |x| <= room0 ==> room == room0 - |x|
  {
  }

  lemma {:induction false} SentTwice(out0: seq<u8>, room0: nat, x: seq<u8>, out1: seq<u8>, room1: nat, y: seq<u8>, out: seq<u8>, room: nat)
    requires Sent(out0, room0, x, out1, room1) && Sent(out1, room1, y, out, room) && |x| <= room0
    ensures Sent(out0, room0, x + y, out, room) && (|x + y| <= room0 <==> |y| <= room1)
  {
    var n := Min(|y|, room1);
    assert (x + y)[..|x| + n] == x + y[..n];
  }

  /** A writer that ran out of room has taken the same part of anything longer. */
  lemma {:induction false} SentShort(out0: seq<u8>, room0: nat, x: seq<u8>, longer: seq<u8>, out: seq<u8>, room: nat)
    requires Sent(out0, room0, x, out, room) && room0 < |x| && Starts(longer, x)
    ensures Sent(out0, room0, longer, out, room) && room0 < |longer|
  {
    assert longer[..room0] == longer[..|x|][..room0];
  }

  /** listhead.encode: the header's bytes, which are in buf. */
  method EncodeHead(buf: array<u8>, head: Listhead) returns (enc: seq<u8>)
    requires buf.Length == 9
    modifies buf
    ensures enc == ListHeader(head.size) && |enc| <= 9 && buf[..|enc|] == enc
  {
    hide Header;
    HeaderRoom(head.size);
    var n := PutHead(buf, 0, 0xC0, 0xF7, head.size);
    enc := buf[..n];
  }

  lemma {:induction false} HeaderRoom(size: u64)
    ensures |ListHeader(size)| <= 9
  {
    SizeBytes(size);
  }

  // ---------- Uses of the buffer ----------

  /** EncodeToBytes for an untyped value. */
  method EncodeToBytes(v: Item) returns (out: seq<u8>)
    requires |Enc(v)| < MAXINT
    ensures out == Enc(v)
  {
    hide Enc, Holds;
    var buf := new EncBuffer();
    buf.WriteItem(v);
    assert buf.frames[0].content == [] + Enc(v);
    out := buf.MakeBytes();
  }

  /** An io.Writer that takes `room` more bytes and then fails. */
  class Sink {
    var out: seq<u8>
    var room: nat

    constructor (room: nat)
      ensures out == [] && this.room == room
    {
      out, this.room := [], room;
    }

    method Write(b: seq<u8>) returns (n: nat, ok: bool)
      modifies this
      ensures n == Min(|b|, old(room)) && ok == (n == |b|)
      ensures Sent(old(out), old(room), b, out, room)
    {
      n := Min(|b|, room);
      ok := n == |b|;
      out, room := out + b[..n], room - n;
    }
  }

  function Min(x: nat, y: nat): nat {
    if x < y then x else y
  }

  /** `done` has been placed at `at` in a buffer that was b0 and is now content. */
  ghost predicate Placed(b0: seq<u8>, at: nat, done: seq<u8>, content: seq<u8>) {
    at + |done| <= |b0| && content == Overwrite(b0, at, done)
  }

  lemma {:induction false} NothingPlaced(b0: seq<u8>, at: nat)
    requires at <= |b0|
    ensures Placed(b0, at, [], b0)
  {
    OverwriteNone(b0, at);
  }

  lemma {:induction false} PlaceMore(b0: seq<u8>, at: nat, done: seq<u8>, content: seq<u8>, p: seq<u8>, content': seq<u8>)
    requires Placed(b0, at, done, content) && at + |done| + |p| <= |content| == |b0| && content' == Overwrite(content, at + |done|, p)
    ensures Placed(b0, at, done + p, content')
  {
    OverwriteTwice(b0, at, done, p);
  }

  lemma {:induction false} PlacedThere(b0: seq<u8>, at: nat, done: seq<u8>, content: seq<u8>)
    requires Placed(b0, at, done, content)
    ensures at + |done| <= |b0| && content == Overwrite(b0, at, done)
  {
  }

  /** The loop of copyTo. */
  method Interleave(dst: array<u8>, at: nat, str: seq<u8>, lheads: seq<Listhead>, ghost out: seq<u8>)
    requires Progress(str, lheads, 0, 0, [], out) && at + |out| <= dst.Length
    modifies dst
    ensures dst[..] == Overwrite(old(dst[..]), at, out)
  {
    ghost var dst0 := dst[..];
    NothingPlaced(dst0, at);
    hide Piece, Tail, Progress, Overwrite, Starts, Placed;
    var strpos: nat, pos: nat := 0, at;
    ghost var done: seq<u8>, content := [], dst0;
    var i := 0;
    while i < |lheads|
      invariant i <= |lheads| && Progress(str, lheads, i, strpos, done, out)
      invariant pos == at + |done| && pos <= dst.Length
      invariant content == dst[..] && Placed(dst0, at, done, content)
    {
      var head := lheads[i];
      ProgressStep(str, lheads, i, strpos, done, out);
      ghost var p := Piece(str, head, strpos);
      var n, m := CopyPiece(dst, pos, str, strpos, head);
      PlaceMore(dst0, at, done, content, p, dst[..]);
      done, content := done + p, dst[..];
      pos := pos + n + m;
      strpos := strpos + n;
      i := i + 1;
    }
    ProgressEnd(str, lheads, strpos, done, out);
    CopyTail(dst, pos, str, strpos);
    PlaceMore(dst0, at, done, content, Tail(str, strpos), dst[..]);
    PlacedThere(dst0, at, done + Tail(str, strpos), dst[..]);
  }

  /** String data and the header that follows it, at dst[pos..]. */
  method CopyPiece(dst: array<u8>, pos: nat, str: seq<u8>, strpos: nat, head: Listhead) returns (n: nat, m: nat)
    requires strpos <= head.offset <= |str| && pos + |Piece(str, head, strpos)| <= dst.Length
    modifies dst
    ensures n == head.offset - strpos && n + m == |Piece(str, head, strpos)|
    ensures dst[..] == Overwrite(old(dst[..]), pos, Piece(str, head, strpos))
  {
    OverwriteTwice(dst[..], pos, str[strpos..head.offset], ListHeader(head.size));
    hide Header, Overwrite;
    n := Copy(dst, pos, str[strpos..head.offset]);
    m := PutHead(dst, pos + n, 0xC0, 0xF7, head.size);
  }

  method CopyTail(dst: array<u8>, pos: nat, str: seq<u8>, strpos: nat)
    requires strpos <= |str| && pos + |Tail(str, strpos)| <= dst.Length
    modifies dst
    ensures dst[..] == Overwrite(old(dst[..]), pos, Tail(str, strpos))
  {
    hide Overwrite;
    var n := Copy(dst, pos, str[strpos..]);
  }

  lemma {:induction false} HoldsSome(frames: seq<Frame>, str: seq<u8>, heads: seq<Listhead>, lhsize: nat)
    requires Holds(frames, str, heads, lhsize)
    ensures frames != []
  {
  }

  /** The string data in front of a header, and the header. */
  function Piece(str: seq<u8>, head: Listhead, from: nat): (p: seq<u8>)
    requires from <= head.offset <= |str|
    ensures |p| == head.offset - from + |ListHeader(head.size)|
  {
    str[from..head.offset] + ListHeader(head.size)
  }

  /** The string data after the last header. */
  function Tail(str: seq<u8>, from: nat): seq<u8>
    requires from <= |str|
  {
    str[from..]
  }

  /** Part way through putting out `out`: `done` is out, and the string data from strpos on and the headers
      from i on are left. */
  ghost predicate Progress(str: seq<u8>, heads: seq<Listhead>, i: nat, strpos: nat, done: seq<u8>, out: seq<u8>) {
    && i <= |heads|
    && Ordered(heads[i..], strpos, |str|)
    && done + Render(str, heads[i..], strpos) == out
  }

  lemma {:induction false} ProgressStart(frames: seq<Frame>, str: seq<u8>, heads: seq<Listhead>, lhsize: nat)
    requires Holds(frames, str, heads, lhsize) && |frames| == 1
    ensures Progress(str, heads, 0, 0, [], frames[0].content)
  {
    assert heads[0..] == heads;
  }

  lemma {:induction false} ProgressStep(str: seq<u8>, heads: seq<Listhead>, i: nat, strpos: nat, done: seq<u8>, out: seq<u8>)
    requires Progress(str, heads, i, strpos, done, out) && i < |heads|
    ensures strpos <= heads[i].offset <= |str|
    ensures var p := Piece(str, heads[i], strpos);
      |done| + |p| <= |out| && Progress(str, heads, i + 1, heads[i].offset, done + p, out)
      && Starts(out, done + p)
  {
    hide ListHeader;
    OrderedBound(heads[i + 1..], heads[i].offset, |str|);
    assert heads[i..][1..] == heads[i + 1..];
    Assoc(done, Piece(str, heads[i], strpos), Render(str, heads[i + 1..], heads[i].offset));
  }

  lemma {:induction false} ProgressEnd(str: seq<u8>, heads: seq<Listhead>, strpos: nat, done: seq<u8>, out: seq<u8>)
    requires Progress(str, heads, |heads|, strpos, done, out)
    ensures strpos <= |str| && out == done + Tail(str, strpos)
  {
  }

  lemma {:induction false} Assoc(a: seq<u8>, b: seq<u8>, c: seq<u8>)
    ensures a + b + c == a + (b + c)
  {
  }

  /** copy: as much as fits. */
  method Copy(dst: array<u8>, at: nat, src: seq<u8>) returns (n: nat)
    requires at <= dst.Length
    modifies dst
    ensures n == if dst.Length - at < |src| then dst.Length - at else |src|
    ensures dst[..] == Overwrite(old(dst[..]), at, src[..n]) && (n == |src| ==> src[..n] == src)
  {
    n := if dst.Length - at < |src| then dst.Length - at else |src|;
    Store(dst, at, src[..n]);
  }

  lemma {:induction false} ExtendTwice(frames: seq<Frame>, x: seq<u8>, y: seq<u8>)
    requires frames != []
    ensures Extend(Extend(frames, x), y) == Extend(frames, x + y)
  {
    var c := frames[|frames| - 1].content;
    assert c + x + y == c + (x + y);
  }

  /** Integers below 128 are encoded as one byte. */
  lemma {:induction false} SmallUint(i: u64)
    ensures i == 0 ==> Enc(Str(IntBytes(i))) == [0x80]
    ensures 0 < i < 128 ==> Enc(Str(IntBytes(i))) == [i]
    ensures i >= 128 ==> Enc(Str(IntBytes(i))) == [(0x80 + |IntBytes(i)|) % 0x100] + IntBytes(i)
  {
    assert IntBytes(0) == [];
    assert 0 < i < 256 ==> IntBytes(i) == [i];
    SizeBytes(i);
    if i >= 256 {
      assert |IntBytes(i)| == 1 + |IntBytes(i / 0x100)|;
    }
  }
}
