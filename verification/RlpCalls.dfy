/** Whole runs of the encoder's buffer: any well-nested sequence of calls of list, listEnd and Write. */
module RlpCalls {
  import opened Machine
  import opened RlpEncode

  datatype Call = OpenList | CloseList | Put(bytes: seq<u8>)

  /** What the calls write, list by list from the outside in, if every list is encoded where it stands:
      closing one puts its header and contents at the end of the list around it. */
  function After(lists: seq<seq<u8>>, calls: seq<Call>): Option<seq<seq<u8>>>
    requires lists != []
    decreases |calls|
  {
    if calls == [] then Some(lists)
    else
      var inner := lists[|lists| - 1];
      var around := lists[..|lists| - 1];
      match calls[0]
      case OpenList => After(lists + [[]], calls[1..])
      case Put(b) => After(around + [inner + b], calls[1..])
      case CloseList =>
        if around == [] then None
        else
          var outer := around[|around| - 1];
          After(around[..|around| - 1] + [outer + (ListHeader(|inner|) + inner)], calls[1..])
  }

  /** The encoding that the calls describe, if they are well nested: every list is closed, and none that was
      not opened. */
  function Encoding(calls: seq<Call>): Option<seq<u8>> {
    match After([[]], calls)
    case Some(lists) => if |lists| == 1 then Some(lists[0]) else None
    case None => None
  }

  /** An upper bound on the bytes that the calls need. */
  function Room(calls: seq<Call>): nat {
    if calls == [] then 0
    else (match calls[0] case OpenList => 0 case Put(b) => |b| case CloseList => 9) + Room(calls[1..])
  }

  ghost function Contents(frames: seq<Frame>): (c: seq<seq<u8>>)
    ensures |c| == |frames|
  {
    seq(|frames|, i requires 0 <= i < |frames| => frames[i].content)
  }

  /** The indices that list returned for the lists that are open. */
  ghost predicate Indices(frames: seq<Frame>, open: seq<nat>) {
    |frames| == |open| + 1 && forall i :: 0 <= i < |open| ==> frames[i + 1].index == open[i]
  }

  lemma {:induction false} AfterOpen(frames: seq<Frame>, index: nat, calls: seq<Call>)
    requires frames != [] && calls != [] && calls[0] == OpenList
    ensures After(Contents(frames), calls) == After(Contents(frames + [Frame([], index)]), calls[1..])
  {
    assert Contents(frames + [Frame([], index)]) == Contents(frames) + [[]];
  }

  lemma {:induction false} AfterPut(frames: seq<Frame>, calls: seq<Call>)
    requires frames != [] && calls != [] && calls[0].Put?
    ensures After(Contents(frames), calls) == After(Contents(Extend(frames, calls[0].bytes)), calls[1..])
  {
    var k := |frames| - 1;
    assert Contents(Extend(frames, calls[0].bytes)) == Contents(frames)[..k] + [frames[k].content + calls[0].bytes];
  }

  lemma {:induction false} AfterClose(frames: seq<Frame>, calls: seq<Call>)
    requires frames != [] && calls != [] && calls[0] == CloseList && After(Contents(frames), calls).Some?
    ensures |frames| > 1 && After(Contents(frames), calls) == After(Contents(Finish(frames)), calls[1..])
  {
    hide ListHeader;
    var k := |frames| - 1;
    var inner := frames[k].content;
    var c := Contents(frames);
    assert c[..k] != [] && c[..k][..k - 1] == c[..k - 1] && c[..k][k - 1] == c[k - 1] == frames[k - 1].content;
    assert Contents(Finish(frames)) == Contents(frames)[..k - 1] + [frames[k - 1].content + (ListHeader(|inner|) + inner)];
  }

  lemma {:induction false} InnerFits(frames: seq<Frame>, str: seq<u8>, heads: seq<Listhead>, lhsize: nat)
    requires Holds(frames, str, heads, lhsize)
    ensures frames != [] && |frames[|frames| - 1].content| <= |str| + lhsize
  {
  }

  /** The calls on the buffer give the encoding they describe, for every well-nested sequence. */
  method Replay(calls: seq<Call>) returns (out: seq<u8>)
    requires Encoding(calls).Some? && Room(calls) < MAXINT
    ensures out == Encoding(calls).value
  {
    hide Holds, ListHeader, After, Contents, Extend, Finish;
    var buf := new EncBuffer();
    var open: seq<nat> := [];
    ghost var goal := After([[]], calls);
    StartContents();
    assert calls[0..] == calls;
    for i := 0 to |calls|
      invariant buf.Valid() && fresh(buf) && fresh(buf.sizebuf)
      invariant Indices(buf.frames, open)
      invariant After(Contents(buf.frames), calls[i..]) == goal
      invariant buf.Size() + Room(calls[i..]) <= Room(calls)
    {
      assert calls[i..][1..] == calls[i + 1..];
      open := Perform(buf, open, calls[i..]);
    }
    LastContents(buf.frames);
    out := buf.MakeBytes();
  }

  lemma {:induction false} StartContents()
    ensures Contents([Frame([], 0)]) == [[]]
  {
  }

  lemma {:induction false} LastContents(frames: seq<Frame>)
    requires frames != []
    ensures After(Contents(frames), []) == Some(Contents(frames)) && |Contents(frames)| == |frames|
    ensures Contents(frames)[0] == frames[0].content
  {
  }

  /** The first of the calls. */
  method Perform(buf: EncBuffer, open: seq<nat>, calls: seq<Call>) returns (open': seq<nat>)
    requires buf.Valid() && Indices(buf.frames, open) && calls != []
    requires After(Contents(buf.frames), calls).Some? && buf.Size() + Room(calls) < MAXINT
    modifies buf, buf.sizebuf
    ensures buf.Valid() && Indices(buf.frames, open')
    ensures After(Contents(buf.frames), calls[1..]) == old(After(Contents(buf.frames), calls))
    ensures buf.Size() + Room(calls[1..]) <= old(buf.Size()) + Room(calls)
  {
    hide Holds, ListHeader, After, Contents;
    ghost var frames := buf.frames;
    open' := open;
    match calls[0] {
      case OpenList =>
        var index := buf.List();
        open' := open + [index];
        AfterOpen(frames, index, calls);
      case Put(b) =>
        buf.Write(b);
        AfterPut(frames, calls);
      case CloseList =>
        AfterClose(frames, calls);
        InnerFits(frames, buf.str, buf.lheads, buf.lhsize);
        HeaderRoom(|frames[|frames| - 1].content|);
        buf.ListEnd(open[|open| - 1]);
        open' := open[..|open| - 1];
    }
  }
}
