/** Any sequence of calls on a stream (decode.go), and when its list sizes stay within the input limit. */
module RlpLimits {
  import opened Machine
  import opened Bytes
  import opened RlpSpec
  import opened RlpStream

  datatype Call = KindCall | BytesCall | UintCall(bits: nat) | RawCall | ListCall | ListEndCall

  /** What the limits of a stream depend on: `waiting` is the size of a value whose header has been read,
      and `head` is the header that the next call meets, if it passes the checks. */
  datatype Limits = Limits(limited: bool, stack: seq<u64>, remaining: u64, waiting: Option<u64>, head: Option<(Kind, nat, nat)>)

  ghost function LimitsOf(s: Stream): Limits
    reads s
  {
    Limits(s.limited, s.stack, s.remaining, if s.kind.Some? && s.kinderr == None then Some(s.size) else None, s.Head())
  }

  /** The list sizes, and the value ahead, are within the input limit. */
  ghost predicate Agree(l: Limits) {
    WithinLimit(l.limited, l.stack, l.remaining) && (l.limited && l.waiting.Some? ==> l.waiting.value <= l.remaining)
  }

  /** If the call enters a list, all of it lies within the list around it. */
  predicate ListInside(l: Limits, c: Call) {
    c.ListCall? && l.head.Some? && l.head.value.0 == ListKind ==>
      ListFits(l.stack, l.head.value.1 + l.head.value.2, l.limited)
  }

  /** n bytes have been taken from the innermost list and the input. */
  predicate Took(l: Limits, l': Limits, n: nat) {
    l'.stack == Charge(l.stack, n) && l'.remaining as int == l.remaining as int - if l.limited then n else 0
  }

  /** What a call does to the limits when it succeeds; leaving a list fails without any effect. */
  predicate Follows(l: Limits, c: Call, ok: bool, l': Limits) {
    && l'.limited == l.limited
    && (ok && !c.ListEndCall? ==> l.head.Some?)
    && match c
       case KindCall => ok ==> var (k, h, n) := l.head.value; Took(l, l', h) && l'.head == Some((k, 0, n))
       case ListCall => ok ==> var (k, h, n) := l.head.value;
         k == ListKind && l'.stack == Charge(l.stack, h + n) + [n] && l'.remaining as int == l.remaining as int - (if l.limited then h else 0)
       case ListEndCall =>
         if ok then AtEnd(l.stack) && l'.stack == l.stack[..|l.stack| - 1] && l'.remaining == l.remaining else !AtEnd(l.stack) && l' == l
       case _ => ok ==> var (_, h, n) := l.head.value; Took(l, l', h + n) && l'.waiting == None
  }

  /** One call keeps the limits in agreement, unless it enters a list that reaches past the one around it. */
  method Do(s: Stream, c: Call) returns (ok: bool)
    requires c.UintCall? ==> UintBits(c.bits)
    modifies s
    ensures Follows(old(LimitsOf(s)), c, ok, LimitsOf(s))
    ensures old(Agree(LimitsOf(s))) ==> (Agree(LimitsOf(s)) <==> ListInside(old(LimitsOf(s)), c))
  {
    hide WithinLimit, ListFits, Charge, KindError, NothingLeft, ParseHead, HeadFits, Fits, Inner;
    hide Stream.Head, Stream.HeadRight, Stream.Single, Stream.LimitsAgree, Stream.Readable, Agree, Sum;
    AgreeIs(s);
    match c {
      case KindCall =>
        var _, _, err := s.Kind();
        ok := err == None;
      case ListCall =>
        var r := s.List();
        ok := r.Ok?;
      case ListEndCall =>
        var r := s.ListEnd();
        ok := r.Ok?;
      case _ =>
        ok := Take(s, c);
    }
    AgreeIs(s);
  }

  lemma {:induction false} AgreeIs(s: Stream)
    ensures Agree(LimitsOf(s)) <==> s.LimitsAgree()
  {
    hide WithinLimit, Stream.Head;
  }

  /** The calls that take a whole value. */
  method Take(s: Stream, c: Call) returns (ok: bool)
    requires c.BytesCall? || (c.UintCall? && UintBits(c.bits)) || c.RawCall?
    modifies s
    ensures Follows(old(LimitsOf(s)), c, ok, LimitsOf(s))
    ensures old(s.LimitsAgree()) ==> s.LimitsAgree()
  {
    hide WithinLimit, ListFits, Charge, KindError, NothingLeft, ParseHead, HeadFits, Fits, ShortestUint, BigEndian, Header, Inner;
    hide Stream.Head, Stream.HeadRight, Stream.Single, Stream.LimitsAgree;
    match c {
      case BytesCall =>
        var r := s.Bytes();
        ok := r.Ok?;
      case UintCall(bits) =>
        var r := s.Uint(bits);
        ok := r.Ok?;
      case RawCall =>
        var r := s.Raw();
        ok := r.Ok?;
    }
  }

  /** In every run, the limits agree in all states exactly if every list that is entered lies within the one
      around it. */
  method Drive(s: Stream, calls: seq<Call>) returns (oks: seq<bool>, ghost states: seq<Limits>)
    requires s.LimitsAgree()
    requires forall i :: 0 <= i < |calls| && calls[i].UintCall? ==> UintBits(calls[i].bits)
    modifies s
    ensures |oks| == |calls| && |states| == |calls| + 1
    ensures states[0] == old(LimitsOf(s)) && states[|calls|] == LimitsOf(s)
    ensures forall i :: 0 <= i < |calls| ==> Follows(states[i], calls[i], oks[i], states[i + 1])
    ensures (forall i :: 0 <= i <= |calls| ==> Agree(states[i]))
      <==> (forall i :: 0 <= i < |calls| ==> ListInside(states[i], calls[i]))
  {
    assert Agree(LimitsOf(s));
    oks, states := [], [LimitsOf(s)];
    hide LimitsOf, Agree, ListInside, Follows;
    for i := 0 to |calls|
      invariant |oks| == i && |states| == i + 1 && states[0] == old(LimitsOf(s)) && states[i] == LimitsOf(s)
      invariant forall j :: 0 <= j < i ==> Follows(states[j], calls[j], oks[j], states[j + 1])
      invariant Agree(states[0])
      invariant forall j :: 0 <= j < i && Agree(states[j]) ==> (Agree(states[j + 1]) <==> ListInside(states[j], calls[j]))
    {
      var ok := Do(s, calls[i]);
      oks, states := oks + [ok], states + [LimitsOf(s)];
    }
    AllAgree(states, calls, |calls|);
  }

  lemma {:induction false} AllAgree(states: seq<Limits>, calls: seq<Call>, n: nat)
    requires n <= |calls| < |states| && Agree(states[0])
    requires forall j :: 0 <= j < |calls| && Agree(states[j]) ==> (Agree(states[j + 1]) <==> ListInside(states[j], calls[j]))
    ensures (forall i :: 0 <= i <= n ==> Agree(states[i])) <==> (forall i :: 0 <= i < n ==> ListInside(states[i], calls[i]))
  {
    hide Agree, ListInside;
    if n > 0 {
      AllAgree(states, calls, n - 1);
      assert Agree(states[n - 1]) ==> (Agree(states[n - 1 + 1]) <==> ListInside(states[n - 1], calls[n - 1]));
      assert states[n] == states[n - 1 + 1];
      if forall i :: 0 <= i < n ==> ListInside(states[i], calls[i]) {
        assert forall i :: 0 <= i <= n - 1 ==> Agree(states[i]);
      } else {
        var i :| 0 <= i < n && !ListInside(states[i], calls[i]);
        if i < n - 1 {
          var j :| 0 <= j <= n - 1 && !Agree(states[j]);
        } else {
          assert !(Agree(states[n - 1]) && Agree(states[n]));
        }
      }
    }
  }
}
