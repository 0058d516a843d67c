/** The pull decoder (decode.go): a stream with a stack of remaining list sizes and an input limit. */
module RlpStream {
  import opened Machine
  import Bits
  import opened Bytes
  import opened RlpSpec
  import opened RlpHeaders

  datatype Error =
    | EOL | EOF | UnexpectedEOF
    | ExpectedString | ExpectedList | CanonInt | CanonSize
    | ElemTooLarge | ValueTooLarge | MoreThanOneValue
    | NotInList | NotAtEOL | UintOverflow
    | StringTooLong | StringTooShort | InvalidBool | TooFewElements

  datatype Result<+T> = Ok(value: T) | Err(error: Error)

  /** The list sizes after n more bytes are taken from the innermost list. Sizes are uint64, so taking
      more than is there wraps around. */
  function Charge(stack: seq<u64>, n: int): (c: seq<u64>)
    ensures |c| == |stack|
  {
    if stack == [] then [] else stack[|stack| - 1 := Wrap(stack[|stack| - 1] - n)]
  }

  function Wrap(x: int): (w: u64)
    ensures 0 <= x < TWO64 ==> w == x
  {
    x % 0x1_0000_0000_0000_0000
  }

  lemma {:induction false} ChargeTwice(stack: seq<u64>, m: int, n: int)
    ensures Charge(Charge(stack, m), n) == Charge(stack, m + n)
    ensures Charge(stack, 0) == stack
  {
    if stack != [] {
      WrapTwice(stack[|stack| - 1], m, n);
      hide Wrap;
    }
  }

  lemma {:induction false} ChargeLast(stack: seq<u64>, n: u64)
    ensures AtEnd(Charge(stack + [n], n)) && Charge(stack + [n], n)[..|stack|] == stack
  {
    assert Charge(stack + [n], n) == stack + [0];
  }

  lemma {:induction false} WrapTwice(t: int, m: int, n: int)
    ensures Wrap(Wrap(t - m) - n) == Wrap(t - (m + n))
  {
  }

  /** The sum of the list sizes. */
  ghost function Sum(stack: seq<u64>): nat {
    if stack == [] then 0 else Sum(stack[..|stack| - 1]) + stack[|stack| - 1]
  }

  lemma {:induction false} TopWithinSum(stack: seq<u64>)
    ensures stack != [] ==> stack[|stack| - 1] <= Sum(stack)
  {
  }

  /** Taking what is there lowers the sum by as much. */
  lemma {:induction false} SumCharge(stack: seq<u64>, n: nat)
    requires stack != [] ==> n <= stack[|stack| - 1]
    ensures stack != [] ==> Sum(Charge(stack, n)) == Sum(stack) - n
    ensures stack == [] ==> Sum(Charge(stack, n)) == 0
  {
    hide Wrap;
    if stack != [] {
      assert Charge(stack, n)[..|stack| - 1] == stack[..|stack| - 1];
    }
  }

  /** Taking what is there keeps the lists within the limit, whether or not the limit is lowered too. */
  lemma {:induction false} ChargeAgrees(stack: seq<u64>, n: nat, limit: nat)
    requires stack != [] ==> n <= stack[|stack| - 1]
    requires Sum(stack) <= limit
    ensures Sum(Charge(stack, n)) <= limit
    ensures n <= limit ==> Sum(Charge(stack, n)) <= limit - n
  {
    SumCharge(stack, n);
  }

  lemma {:induction false} ChargeWithin(stack: seq<u64>, n: nat)
    requires stack != [] ==> n <= stack[|stack| - 1]
    ensures stack != [] ==> Charge(stack, n) == stack[|stack| - 1 := stack[|stack| - 1] - n]
    ensures stack == [] ==> Charge(stack, n) == []
  {
  }

  /** n bytes are available within the innermost list and the input limit. */
  predicate Fits(stack: seq<u64>, limited: bool, remaining: u64, n: nat) {
    && (stack != [] ==> n <= stack[|stack| - 1])
    && (limited ==> n <= remaining)
  }

  /** Taking m bytes and then n is taking them at once. */
  lemma {:induction false} TakeTwice(stack: seq<u64>, limited: bool, remaining: u64, m: nat, n: nat)
    requires Fits(stack, limited, remaining, m)
    ensures Fits(Charge(stack, m), limited, if limited then remaining - m else remaining, n) <==> Fits(stack, limited, remaining, m + n)
  {
  }

  /** The header ahead is well formed and passes the size checks. The size of the value is checked
      against what the list had left before the header was read. */
  predicate HeadFits(b: seq<u8>, stack: seq<u64>, limited: bool, remaining: u64) {
    && ParseHead(b).Some?
    && var (k, h, s) := ParseHead(b).value;
      && (stack != [] ==> h <= stack[|stack| - 1] && s <= stack[|stack| - 1])
      && (limited ==> h + s <= remaining)
  }

  function Top(stack: seq<u64>): u64
    requires stack != []
  {
    stack[|stack| - 1]
  }

  /** The innermost list has nothing left. */
  predicate AtEnd(stack: seq<u64>) {
    stack != [] && stack[|stack| - 1] == 0
  }

  /** Outside of any list, the input or its limit is used up. */
  predicate NothingLeft(input: seq<u8>, stack: seq<u64>, limited: bool, remaining: u64) {
    stack == [] && (input == [] || (limited && remaining == 0))
  }

  /** The errors that concern the value being read, not the position. */
  predicate Inner(e: Error) {
    e != EOL && e != EOF && e != MoreThanOneValue
  }

  /** Opening a list moves its size from the enclosing list to a new one. The sum of the sizes stays what
      it was, unless the enclosing list has less left: then its size wraps around. */
  lemma {:induction false} ListAgrees(stack: seq<u64>, s: u64)
    ensures var after := Sum(Charge(stack, s) + [s]);
      if stack == [] then after == s
      else if s <= stack[|stack| - 1] then after == Sum(stack)
      else after == Sum(stack) + TWO64
  {
    hide Wrap, Sum, Charge;
    SumPush(Charge(stack, s), s);
    SumNone();
    if stack != [] {
      ChargeSplit(stack, s);
    }
  }

  /** The sum of the sizes after the innermost one has been charged. */
  lemma {:induction false} ChargeSplit(stack: seq<u64>, s: u64)
    requires stack != []
    ensures Sum(Charge(stack, s)) == Sum(stack) - s + if s <= stack[|stack| - 1] then 0 else 0x1_0000_0000_0000_0000
  {
    hide Wrap, Sum;
    var t := stack[|stack| - 1];
    WrapDifference(t, s);
    SumUpdate(stack, Wrap(t as int - s));
    assert Charge(stack, s) == stack[|stack| - 1 := Wrap(t as int - s)];
    hide Charge;
  }

  lemma {:induction false} WrapDifference(t: u64, s: u64)
    ensures Wrap(t as int - s) == t as int - s + if s <= t then 0 else 0x1_0000_0000_0000_0000
  {
  }

  ghost predicate WithinLimit(limited: bool, stack: seq<u64>, remaining: u64) {
    limited ==> Sum(stack) <= remaining
  }

  /** The innermost list has room for n more bytes, as far as that matters. */
  predicate ListFits(stack: seq<u64>, n: nat, limited: bool) {
    !limited || stack == [] || n <= stack[|stack| - 1]
  }

  lemma {:induction false} SumPush(stack: seq<u64>, x: u64)
    ensures Sum(stack + [x]) == Sum(stack) + x
  {
    assert (stack + [x])[..|stack|] == stack;
  }

  lemma {:induction false} SumUpdate(stack: seq<u64>, w: u64)
    requires stack != []
    ensures Sum(stack[|stack| - 1 := w]) == Sum(stack) - stack[|stack| - 1] + w
  {
    assert stack[|stack| - 1 := w][..|stack| - 1] == stack[..|stack| - 1];
  }

  lemma {:induction false} SumNone()
    ensures Sum([]) == 0
  {
  }

  /** Opening a list keeps the lists within the limit exactly if the list fits the one around it. */
  lemma {:induction false} ListLimits(stack: seq<u64>, s: u64, limited: bool, remaining: u64)
    requires limited ==> Sum(stack) <= remaining && s <= remaining
    ensures WithinLimit(limited, Charge(stack, s) + [s], remaining) <==> ListFits(stack, s, limited)
  {
    hide Sum, Charge;
    ListAgrees(stack, s);
    TopWithinSum(stack);
  }

  lemma {:induction false} ListFitsTwice(stack: seq<u64>, h: nat, s: u64, limited: bool)
    requires stack != [] ==> h <= stack[|stack| - 1]
    ensures ListFits(Charge(stack, h), s, limited) <==> ListFits(stack, h + s, limited)
  {
  }

  /** Why n bytes cannot be taken, if `have` are left in the input. */
  function TakeError(stack: seq<u64>, limited: bool, remaining: u64, n: nat, have: nat): Option<Error> {
    if stack != [] && n > stack[|stack| - 1] then Some(ElemTooLarge)
    else if limited && n > remaining then Some(ValueTooLarge)
    else if n > have then Some(UnexpectedEOF)
    else None
  }

  /** Why a size of n bytes at the start of b is refused. */
  function SizeError(b: seq<u8>, stack: seq<u64>, limited: bool, remaining: u64, n: nat): Option<Error>
    requires n >= 1
  {
    var e := TakeError(stack, limited, remaining, n, |b|);
    if e.Some? then e
    else if b[0] == 0 || BigEndian(b[..n]) < 56 then Some(CanonSize)
    else None
  }

  /** Why a header is refused. Outside of any list, nothing left to read is the end of the input. */
  function HeaderError(b: seq<u8>, stack: seq<u64>, limited: bool, remaining: u64): Option<Error> {
    var e := TakeError(stack, limited, remaining, 1, |b|);
    if e.Some? then if stack == [] then Some(EOF) else e
    else
      var left: u64 := if limited then remaining - 1 else remaining;
      if 0xB8 <= b[0] < 0xC0 then SizeError(b[1..], Charge(stack, 1), limited, left, b[0] - 0xB7)
      else if 0xF8 <= b[0] then SizeError(b[1..], Charge(stack, 1), limited, left, b[0] - 0xF7)
      else None
  }

  /** Why there is no value to be read. */
  function KindError(b: seq<u8>, stack: seq<u64>, limited: bool, remaining: u64): Option<Error> {
    if AtEnd(stack) then Some(EOL)
    else
      var e := HeaderError(b, stack, limited, remaining);
      if e.Some? then e
      else match ParseHead(b)
        case None => None
        case Some((_, h, s)) =>
          if stack != [] && s > Top(stack) then Some(ElemTooLarge)
          else if limited && h + s > remaining then Some(ValueTooLarge)
          else None
  }

  /** How many bytes the header takes that starts with the byte b. */
  function HeadLength(b: u8): nat {
    if 0xB8 <= b < 0xC0 then 1 + (b - 0xB7) else if 0xF8 <= b then 1 + (b - 0xF7) else 1
  }

  /** The error of a header, from the bytes and the limits alone. With `left` bytes left in the innermost
      list: at its end, EOL. Then nothing to be read. Then the bytes of the header are tested against the list,
      the limit and the input. Then the header must be in its shortest form. At last the size of the value is
      tested, against the list without the header and against the limit with it. */
  lemma {:induction false} Refusals(b: seq<u8>, stack: seq<u64>, limited: bool, remaining: u64)
    ensures var e := KindError(b, stack, limited, remaining);
      var inList := stack != []; var left: nat := if inList then stack[|stack| - 1] else 0;
      (e == Some(EOL) <==> inList && left == 0)
      && (!(inList && left == 0) ==>
        (e == Some(EOF) <==> !inList && (b == [] || (limited && remaining == 0)))
        && (inList && limited && remaining == 0 ==> e == Some(ValueTooLarge))
        && (inList && !(limited && remaining == 0) && b == [] ==> e == Some(UnexpectedEOF))
        && (b != [] && !(limited && remaining == 0) ==>
          var h := HeadLength(b[0]);
          if inList && h > left then e == Some(ElemTooLarge)
          else if limited && h > remaining then e == Some(ValueTooLarge)
          else if h > |b| then e == Some(UnexpectedEOF)
          else match ParseHead(b)
            case None => e == Some(CanonSize)
            case Some((_, h', s)) =>
              h' == h && if inList && s > left then e == Some(ElemTooLarge)
                         else if limited && h + s > remaining then e == Some(ValueTooLarge)
                         else e == None))
  {
    hide BigEndian;
    if b != [] {
      LongHeader(b);
    }
    if stack != [] && stack[|stack| - 1] > 0 {
      ChargeWithin(stack, 1);
    }
    hide Charge;
  }

  lemma {:induction false} LengthOfHead(b: seq<u8>)
    requires ParseHead(b).Some?
    ensures b != [] && 1 <= ParseHead(b).value.1 == HeadLength(b[0]) <= |b|
  {
    hide BigEndian;
  }

  /** The size of a long header as ParseHead reads it. */
  lemma {:induction false} LongHeader(b: seq<u8>)
    requires b != []
    ensures var n := HeadLength(b[0]) - 1;
      n > 0 && n < |b| ==> b[1..1 + n] == b[1..][..n]
  {
  }

  /** A header as it is written. */
  function HeadBytes(k: Kind, byteval: u8, size: u64): seq<u8> {
    if k == Byte then [byteval] else Header(HeadTag(k), HeadLargeTag(k), size)
  }

  /** A header that is put back parses as what it was. */
  lemma {:induction false} HeadBack(k: Kind, byteval: u8, size: u64, rest: seq<u8>)
    requires k == Byte ==> byteval < 0x80
    ensures var b := HeadBytes(k, byteval, size);
      ParseHead(b + rest) == Some((k, |b|, if k == Byte then 0 else size as nat)) && (b + rest)[|b|..] == rest
      && (k == Byte ==> (b + rest)[0] == byteval)
  {
    if k != Byte {
      WrittenHeader(k, size, rest);
      hide ParseHead, Header;
    }
  }

  /** A value's bytes are the header that would be written for it and its contents. */
  lemma {:induction false} RawBytes(b: seq<u8>)
    requires ParseHead(b).Some? && ParseHead(b).value.0 != Byte
    requires ParseHead(b).value.1 + ParseHead(b).value.2 <= |b|
    ensures var (k, h, s) := ParseHead(b).value;
      Header(HeadTag(k), HeadLargeTag(k), s) + b[h..][..s] == b[..h + s]
  {
    ParsedHeader(b);
    hide ParseHead, Header;
    var (_, h, s) := ParseHead(b).value;
    assert b[..h + s] == b[..h] + b[h..][..s];
  }

  /** The contents of a string that is the shortest form of a number and had to be a string. */
  predicate ShortestUint(b: seq<u8>) {
    b == [] || (b[0] != 0 && BigEndian(b) >= 0x80)
  }

  /** 8, 16, 32 or 64 bits. */
  predicate UintBits(bits: nat) {
    bits == 8 || bits == 16 || bits == 32 || bits == 64
  }

  function ByteCount(bits: nat): (n: nat)
    requires UintBits(bits)
    ensures n <= 8 && 8 * n == bits
  {
    bits / 8
  }

  /** n bytes further on. */
  ghost predicate Moved(limited: bool, input0: seq<u8>, stack0: seq<u64>, remaining0: u64, n: nat,
                        input: seq<u8>, stack: seq<u64>, remaining: u64) {
    && n <= |input0| && input == input0[n..]
    && stack == Charge(stack0, n)
    && (limited ==> n <= remaining0 && remaining == remaining0 - n)
    && (!limited ==> remaining == remaining0)
  }

  /** A list whose header has h bytes has been entered. */
  lemma {:induction false} Entered(limited: bool, i0: seq<u8>, s0: seq<u64>, r0: u64, h: nat, i1: seq<u8>, s1: seq<u64>, r1: u64,
                                   n: u64, s2: seq<u64>)
    requires Moved(limited, i0, s0, r0, h, i1, s1, r1) && s2 == Charge(s1, n) + [n] && (s0 != [] ==> h <= s0[|s0| - 1])
    ensures h <= |i0| && i1 == i0[h..] && r1 as int == r0 as int - (if limited then h else 0)
    ensures s2 == Charge(s0, h + n) + [n] && (ListFits(s1, n, limited) <==> ListFits(s0, h + n, limited))
  {
    ChargeTwice(s0, h, n);
    ListFitsTwice(s0, h, n, limited);
  }

  lemma {:induction false} MovedNone(limited: bool, i0: seq<u8>, s0: seq<u64>, r0: u64)
    ensures Moved(limited, i0, s0, r0, 0, i0, s0, r0)
  {
    ChargeTwice(s0, 0, 0);
  }

  lemma {:induction false} MovedBy(limited: bool, i0: seq<u8>, s0: seq<u64>, r0: u64, n: nat, i1: seq<u8>, s1: seq<u64>, r1: u64)
    requires Moved(limited, i0, s0, r0, n, i1, s1, r1)
    ensures n <= |i0| && i1 == i0[n..] && s1 == Charge(s0, n) && (limited ==> n <= r0)
    ensures r1 as int == r0 as int - if limited then n else 0
  {
  }

  lemma {:induction false} MovedTwice(limited: bool, i0: seq<u8>, s0: seq<u64>, r0: u64, m: nat, i1: seq<u8>, s1: seq<u64>, r1: u64,
                                      n: nat, i2: seq<u8>, s2: seq<u64>, r2: u64)
    requires Moved(limited, i0, s0, r0, m, i1, s1, r1) && Moved(limited, i1, s1, r1, n, i2, s2, r2)
    ensures Moved(limited, i0, s0, r0, m + n, i2, s2, r2)
    ensures m + n <= |i0| && i1[..n] == i0[m..][..n] == i0[m..m + n]
  {
    hide Charge;
    ChargeTwice(s0, m, n);
  }

  class Stream {
    var input: seq<u8>            // what the underlying reader still holds
    var remaining: u64            // bytes the input limit still allows
    var limited: bool
    var stack: seq<u64>           // what is left of each open list
    var kind: Option<Kind>        // kind of the value ahead, None before its header is read
    var size: u64                 // size of the value ahead
    var kinderr: Option<Error>
    var byteval: u8

    /** The open lists claim no more than the input limit allows, and neither does the value ahead. */
    ghost predicate LimitsAgree()
      reads this
    {
      WithinLimit(limited, stack, remaining) && (limited && kind.Some? && kinderr == None ==> size <= remaining)
    }

    /** NewStream. A reader whose length is known limits the stream even without an explicit limit. */
    constructor (input: seq<u8>, inputLimit: u64, readerLen: Option<u64>)
      ensures this.input == input && stack == [] && kind == None && kinderr == None
      ensures limited == (inputLimit > 0 || readerLen.Some?)
      ensures inputLimit > 0 ==> remaining == inputLimit
      ensures inputLimit == 0 && readerLen.Some? ==> remaining == readerLen.value
      ensures LimitsAgree()
      ensures HeadRight()
    {
      this.input := input;
      if inputLimit > 0 {
        remaining, limited := inputLimit, true;
      } else if readerLen.Some? {
        remaining, limited := readerLen.value, true;
      } else {
        remaining, limited := 0, false;
      }
      stack, size, kind, kinderr, byteval := [], 0, None, None, 0;
    }

    /** NewListStream: the payload of a list, without its header. */
    constructor Payload(input: seq<u8>, len: u64, readerLen: Option<u64>)
      ensures this.input == input && stack == [] && Head() == Some((ListKind, 0, len as nat))
      ensures limited == (len > 0 || readerLen.Some?)
      ensures limited ==> remaining == if len > 0 then len else readerLen.value
      ensures LimitsAgree()
      ensures HeadRight()
    {
      this.input := input;
      limited := len > 0 || readerLen.Some?;
      remaining := if len > 0 then len else if readerLen.Some? then readerLen.value else 0;
      stack, size, kind, kinderr, byteval := [], len, Some(ListKind), None, 0;
    }

    /** Checks n against the limits and takes it from them. */
    method WillRead(n: u64) returns (err: Option<Error>)
      modifies this`kind, this`stack, this`remaining
      ensures kind == None
      ensures err == None <==> old(Fits(stack, limited, remaining, n))
      ensures err == None <==> (old(stack) != [] ==> n <= old(stack)[|old(stack)| - 1]) && (limited ==> n <= old(remaining))
      ensures err == None ==> stack == Charge(old(stack), n) && remaining == old(remaining) - if limited then n else 0
      ensures err.Some? ==> remaining == old(remaining)
      ensures err.Some? ==> if old(stack != [] && n > stack[|stack| - 1]) then err.value == ElemTooLarge && stack == old(stack)
                            else err.value == ValueTooLarge && stack == Charge(old(stack), n)
      ensures old(LimitsAgree()) ==> LimitsAgree()
      ensures old(LimitsAgree() && stack != []) ==> err != Some(ValueTooLarge)
    {
      hide Sum, Charge;
      TopWithinSum(stack);
      ghost var fits := stack != [] ==> n <= stack[|stack| - 1];
      if fits {
        ChargeWithin(stack, n);
        if limited && LimitsAgree() {
          ChargeAgrees(stack, n, remaining);
        }
      }
      kind := None;
      if stack != [] {
        if n > stack[|stack| - 1] {
          return Some(ElemTooLarge);
        }
        stack := stack[|stack| - 1 := stack[|stack| - 1] - n];
      }
      if limited {
        if n > remaining {
          return Some(ValueTooLarge);
        }
        remaining := remaining - n;
      }
      return None;
    }

    /** One byte from the reader. */
    method ReadByte() returns (b: u8, err: Option<Error>)
      modifies this`kind, this`stack, this`remaining, this`input
      ensures kind == None
      ensures err == None <==> old(Fits(stack, limited, remaining, 1) && input != [])
      ensures err == None ==> b == old(input)[0] && Consumed(old(input), old(stack), old(remaining), 1)
      ensures err == old(TakeError(stack, limited, remaining, 1, |input|))
      ensures |stack| == |old(stack)|
      ensures old(LimitsAgree()) ==> LimitsAgree()
    {
      hide Sum, Wrap;
      b := 0;
      err := WillRead(1);
      if err.Some? {
        return;
      }
      if input == [] {
        return 0, Some(UnexpectedEOF);
      }
      b, input := input[0], input[1..];
    }

    /** The stream has moved n bytes on. */
    ghost predicate Consumed(input0: seq<u8>, stack0: seq<u64>, remaining0: u64, n: nat)
      reads this
    {
      Moved(limited, input0, stack0, remaining0, n, input, stack, remaining)
    }

    /** The stream has read exactly e, which was ahead, and has no header waiting. */
    ghost predicate Taken(input0: seq<u8>, stack0: seq<u64>, remaining0: u64, e: seq<u8>)
      reads this
    {
      kind == None && Starts(input0, e) && Consumed(input0, stack0, remaining0, |e|)
    }

    /** Exactly n bytes from the reader, however it chunks them. */
    method ReadFull(n: u64) returns (buf: seq<u8>, err: Option<Error>)
      modifies this`kind, this`stack, this`remaining, this`input
      ensures kind == None
      ensures err == None <==> old(Fits(stack, limited, remaining, n) && n <= |input|)
      ensures err == None ==> buf == old(input)[..n] && Consumed(old(input), old(stack), old(remaining), n)
      ensures err == old(TakeError(stack, limited, remaining, n, |input|))
      ensures old(LimitsAgree()) ==> LimitsAgree()
    {
      buf := [];
      err := WillRead(n);
      if err.Some? {
        return;
      }
      if |input| < n {
        buf, input := input, [];
        return buf, Some(UnexpectedEOF);
      }
      buf, input := input[..n], input[n..];
    }

    /** A big-endian number of `n` bytes; two or more may not start with a zero. */
    method ReadUint(n: nat) returns (v: u64, err: Option<Error>)
      requires n <= 8
      modifies this`kind, this`stack, this`remaining, this`input
      ensures kind == None
      ensures old(LimitsAgree()) ==> LimitsAgree()
      ensures err == None || err == Some(CanonSize)
        <==> old(Fits(stack, limited, remaining, n) && n <= |input|)
      ensures err == None || err == Some(CanonSize) ==> Consumed(old(input), old(stack), old(remaining), n)
      ensures err == Some(CanonSize) ==> n >= 2 && old(input)[0] == 0
      ensures err == None ==> v == BigEndian(old(input)[..n]) && (n >= 2 ==> old(input)[0] != 0)
      ensures err == None || err == Some(CanonSize) || err == old(TakeError(stack, limited, remaining, n, |input|))
    {
      v := 0;
      if n == 0 {
        kind := None;
        ChargeTwice(stack, 0, 0);
        return 0, None;
      } else if n == 1 {
        var b;
        b, err := ReadByte();
        if err == None {
          assert old(input)[..1] == [b];
          BigEndianSingle(b);
          v := b;
        }
      } else {
        var buffer;
        buffer, err := ReadFull(n);
        if err.Some? {
          return;
        }
        if buffer[0] == 0 {
          return 0, Some(CanonSize);
        }
        NumberFits(buffer);
        v := BigEndian(buffer);
      }
    }

    /** A size of 56 or more, in n bytes. */
    method ReadSize(n: nat) returns (v: u64, err: Option<Error>)
      requires 1 <= n <= 8
      modifies this`kind, this`stack, this`remaining, this`input
      ensures kind == None
      ensures old(LimitsAgree()) ==> LimitsAgree()
      ensures err == None <==> (
        old(Fits(stack, limited, remaining, n)) && n <= |old(input)| && old(input)[0] != 0 && BigEndian(old(input)[..n]) >= 56)
      ensures err == None ==> v == BigEndian(old(input)[..n]) && Consumed(old(input), old(stack), old(remaining), n)
      ensures err == old(SizeError(input, stack, limited, remaining, n))
    {
      hide Sum, Wrap;
      v, err := ReadUint(n);
      LeadingZero(old(input), n);
      if err == None && v < 56 {
        err := Some(CanonSize);
      }
    }

    /** Reads the header of the next value. */
    method ReadKind() returns (k: Kind, n: u64, err: Option<Error>)
      modifies this`kind, this`stack, this`remaining, this`input, this`byteval
      ensures kind == None
      ensures old(LimitsAgree()) ==> LimitsAgree()
      ensures err == None <==> old(ParseHead(input).Some? && Fits(stack, limited, remaining, ParseHead(input).value.1))
      ensures err == None ==> var (k', h, s) := ParseHead(old(input)).value;
        k == k' && n == s && Consumed(old(input), old(stack), old(remaining), h)
        && (k == Byte ==> byteval == old(input)[0])
      ensures err == old(HeaderError(input, stack, limited, remaining))
      ensures err == Some(EOF) <==> old(NothingLeft(input, stack, limited, remaining))
    {
      hide Sum, Charge, BigEndian;
      k, n := Byte, 0;
      var b;
      b, err := ReadByte();
      if err.Some? {
        if |stack| == 0 && (err.value == UnexpectedEOF || err.value == ValueTooLarge) {
          err := Some(EOF);
        }
        return;
      }
      byteval := 0;
      if b < 0x80 {
        byteval := b;
        return Byte, 0, None;
      } else if b < 0xB8 {
        return String, b - 0x80, None;
      } else if b < 0xC0 {
        ChargeTwice(old(stack), 1, b - 0xB7);
        TakeTwice(old(stack), limited, old(remaining), 1, b - 0xB7);
        assert ParseHead(old(input)) == ParseSize(old(input), String, b - 0xB7);
        assert |input| >= b - 0xB7 ==> old(input)[1..1 + (b - 0xB7)] == input[..b - 0xB7];
        n, err := ReadSize(b - 0xB7);
        return String, n, err;
      } else if b < 0xF8 {
        return ListKind, b - 0xC0, None;
      } else {
        ChargeTwice(old(stack), 1, b - 0xF7);
        TakeTwice(old(stack), limited, old(remaining), 1, b - 0xF7);
        assert ParseHead(old(input)) == ParseSize(old(input), ListKind, b - 0xF7);
        assert |input| >= b - 0xF7 ==> old(input)[1..1 + (b - 0xF7)] == input[..b - 0xF7];
        n, err := ReadSize(b - 0xF7);
        return ListKind, n, err;
      }
    }

    /** The header ahead: kind, the bytes of it that are still in the input, and the value's size. */
    ghost function Head(): Option<(Kind, nat, nat)>
      reads this
    {
      if kind.Some? then
        if kinderr.Some? then None
        else var left: nat := if kind.value == Byte then 0 else size; Some((kind.value, 0, left))
      else if HeadFits(input, stack, limited, remaining) then ParseHead(input)
      else None
    }

    /** The byte that is its own header. */
    ghost function Single(): u8
      reads this
    {
      if kind.Some? || input == [] then byteval else input[0]
    }

    /** What is ahead, with a header that has already been read put back. */
    ghost function Whole(): seq<u8>
      reads this
    {
      if kind == None || kinderr.Some? then input else HeadBytes(kind.value, byteval, size) + input
    }

    /** A byte that is its own header is below 0x80. */
    ghost predicate HeadRight()
      reads this
    {
      kind == Some(Byte) && kinderr == None ==> byteval < 0x80
    }

    /** All of the value ahead can be read. */
    ghost predicate Readable()
      reads this
    {
      Head().Some? && var (k, h, s) := Head().value;
        h + s <= |input| && Fits(stack, limited, remaining, h + s)
    }

    /** Kind and size of the next value. The header is read once; until the value itself is read, the
        same answer is given again. */
    method Kind() returns (k: Kind, n: u64, err: Option<Error>)
      modifies this`kind, this`stack, this`remaining, this`input, this`byteval, this`size, this`kinderr
      ensures old(LimitsAgree()) ==> LimitsAgree()
      ensures err == None <==> old(Head()).Some?
      ensures err == None ==> var (k', h, s) := old(Head()).value;
        k == k' && (k != Byte ==> n == s) && Consumed(old(input), old(stack), old(remaining), h) && Head() == Some((k, 0, s)) && kind == Some(k)
        && (k == Byte ==> byteval == old(Single()) && s == 0 && h <= 1)
        && (old(kind) == None ==> h >= 1)
        && (old(stack) != [] ==> h <= old(stack)[|old(stack)| - 1])
      ensures err == None && old(kind) == None ==> old(Head()) == ParseHead(old(input))
      ensures err == None ==> (Readable() <==> old(Readable())) && (k == Byte ==> Readable())
      ensures old(kind).Some? ==> unchanged(this) && err == kinderr
      ensures old(kind) == None ==> err == old(KindError(input, stack, limited, remaining))
      ensures old(kind) == None ==> (err == Some(EOL) <==> old(AtEnd(stack)))
      ensures old(kind) == None && old(AtEnd(stack)) ==> unchanged(this)
      ensures old(kind) == None ==> err != Some(MoreThanOneValue)
      ensures old(kind) == None ==> (err == Some(EOF) <==> old(NothingLeft(input, stack, limited, remaining)))
      ensures old(kind) == None && !old(AtEnd(stack)) ==> kind.Some? && kinderr == err && size == n
      ensures old(kind) == None && old(ParseHead(input)).Some? ==> var (_, h, s) := old(ParseHead(input)).value;
        (old(stack) != [] ==> h <= old(stack)[|old(stack)| - 1]) && (limited ==> h <= old(remaining)) ==>
          var over := old(stack) != [] && s > old(stack)[|old(stack)| - 1];
          (err == Some(ElemTooLarge) <==> over) && (err == Some(ValueTooLarge) <==> !over && limited && h + s > old(remaining))
      ensures old(HeadRight()) ==> HeadRight()
    {
      Refusals(input, stack, limited, remaining);
      if ParseHead(input).Some? {
        LengthOfHead(input);
      }
      ChargeTwice(stack, 0, 0);
      hide KindError, Sum, Charge, WithinLimit, ParseHead;
      if kind.Some? {
        return kind.value, size, kinderr;
      }
      if |stack| > 0 && stack[|stack| - 1] == 0 {
        return Byte, 0, Some(EOL);
      }
      hide Moved, Fits;
      k, n, err := NewKind();
    }

    /** The part of Kind that reads a header and tests the size of the value. */
    method NewKind() returns (k: Kind, n: u64, err: Option<Error>)
      requires kind == None && !AtEnd(stack)
      modifies this`kind, this`stack, this`remaining, this`input, this`byteval, this`size, this`kinderr
      ensures old(LimitsAgree()) ==> LimitsAgree()
      ensures kind == Some(k) && size == n && kinderr == err && (k == Byte && err == None ==> byteval < 0x80)
      ensures err == old(KindError(input, stack, limited, remaining))
      ensures err == None <==> old(HeadFits(input, stack, limited, remaining))
      ensures err == None ==> var (k', h, s) := old(ParseHead(input)).value;
        && k == k' && n == s && h >= 1 && Consumed(old(input), old(stack), old(remaining), h)
        && (k == Byte ==> old(input) != [] && byteval == old(input)[0] && h == 1 && s == 0 && Fits(stack, limited, remaining, 0))
        && (s <= |input| && Fits(stack, limited, remaining, s) <==>
            h + s <= |old(input)| && old(Fits(stack, limited, remaining, h + s)))
    {
      hide Sum, Charge, BigEndian;
      ghost var stack0, remaining0 := stack, remaining;
      var inList, listLimit := |stack| > 0, if |stack| > 0 then stack[|stack| - 1] else 0;
      k, n, err := ReadKind();
      if err == None {
        TakeTwice(stack0, limited, remaining0, ParseHead(old(input)).value.1, 0);
        TakeTwice(stack0, limited, remaining0, ParseHead(old(input)).value.1, n);
        if inList && n > listLimit {
          err := Some(ElemTooLarge);
        } else if limited && n > remaining {
          err := Some(ValueTooLarge);
        }
      }
      kind, size, kinderr := Some(k), n, err;
    }

    /** Reads the value ahead, whose header is known. */
    method ReadValue(n: u64) returns (r: Result<seq<u8>>)
      requires Head().Some? && kind.Some? && kind != Some(Byte) && size == n
      modifies this`kind, this`stack, this`remaining, this`input
      ensures old(LimitsAgree()) ==> LimitsAgree()
      ensures r.Ok? <==> old(Readable())
      ensures r.Ok? ==> r.value == old(input)[..n] && kind == None && Consumed(old(input), old(stack), old(remaining), n)
      ensures r.Ok? || Inner(r.error)
      ensures kind == None
    {
      hide Charge, Sum, ParseHead;
      var b, err := ReadFull(n);
      return if err == None then Ok(b) else Err(err.value);
    }

    /** The contents of a string. A single byte below 0x80 must not carry a header. */
    method Bytes() returns (r: Result<seq<u8>>)
      modifies this
      ensures limited == old(limited)
      ensures old(LimitsAgree()) ==> LimitsAgree()
      ensures r.Ok? <==> old(Readable()) && var (k, h, s) := old(Head()).value;
        k == Byte || (k == String && !(s == 1 && old(input)[h] < 0x80))
      ensures r.Ok? ==> var (k, h, s) := old(Head()).value;
        r.value == (if k == Byte then [old(Single())] else old(input)[h..h + s])
        && kind == None && Consumed(old(input), old(stack), old(remaining), h + s)
      ensures old(Head()).Some? ==> r.Ok? || (if old(Head()).value.0 == ListKind then r.error == ExpectedString
        else if old(Readable()) then r.error == CanonSize else Inner(r.error))
      ensures old(kind) == None ==> (r == Err(EOL) <==> old(AtEnd(stack)))
      ensures old(kind) == None && r == Err(EOL) ==> unchanged(this)
      ensures old(kind) == None && old(Head()) == None ==>
        r.Err? && old(KindError(input, stack, limited, remaining)) == Some(r.error)
      ensures old(kind).Some? && old(kinderr).Some? ==> r == Err(old(kinderr.value))
      ensures old(Head()).Some? && old(Head()).value.0 == ListKind ==> var (k, h, s) := old(Head()).value;
        Head() == Some((k, 0, s)) && kind.Some? && Consumed(old(input), old(stack), old(remaining), h)
      ensures old(HeadRight()) ==> HeadRight()
    {
      hide KindError, NothingLeft, Charge, ParseHead, HeadFits, Fits, WithinLimit, Moved;
      var k, n, err := Kind();
      if err.Some? {
        return Err(err.value);
      }
      ghost var (_, h, _) := old(Head()).value;
      match k {
        case Byte =>
          kind := None;
          return Ok([byteval]);
        case String =>
          ghost var input1, stack1, remaining1 := input, stack, remaining;
          r := ReadValue(n);
          if r.Ok? {
            MovedTwice(limited, old(input), old(stack), old(remaining), h, input1, stack1, remaining1, n, input, stack, remaining);
          }
          if r.Ok? && n == 1 && r.value[0] < 0x80 {
            return Err(CanonSize);
          }
        case ListKind =>
          return Err(ExpectedString);
      }
    }

    /** An unsigned integer of at most maxbits bits, in its shortest form. */
    method Uint(maxbits: nat) returns (r: Result<u64>)
      requires UintBits(maxbits)
      modifies this
      ensures limited == old(limited)
      ensures old(LimitsAgree()) ==> LimitsAgree()
      ensures r.Ok? <==> old(Readable()) && var (k, h, s) := old(Head()).value;
        (k == Byte && old(Single()) != 0)
        || (k == String && s <= ByteCount(maxbits) && ShortestUint(old(input)[h..h + s]))
      ensures r.Ok? ==> var (k, h, s) := old(Head()).value;
        r.value == (if k == Byte then old(Single()) else BigEndian(old(input)[h..h + s]))
        && kind == None && Consumed(old(input), old(stack), old(remaining), h + s)
      ensures old(Head()).Some? ==> r.Ok? || (match old(Head()).value.0
        case ListKind => r.error == ExpectedString
        case Byte => r.error == CanonInt
        case String => if old(Head()).value.2 > ByteCount(maxbits) then r.error == UintOverflow
          else if old(Readable()) then r.error == CanonInt || r.error == CanonSize else Inner(r.error))
      ensures old(kind) == None ==> (r == Err(EOL) <==> old(AtEnd(stack)))
      ensures old(kind) == None && r == Err(EOL) ==> unchanged(this)
      ensures old(kind) == None && old(Head()) == None ==>
        r.Err? && old(KindError(input, stack, limited, remaining)) == Some(r.error)
      ensures old(kind).Some? && old(kinderr).Some? ==> r == Err(old(kinderr.value))
      ensures old(Head()).Some? && old(Head()).value.0 == ListKind ==> var (k, h, s) := old(Head()).value;
        Head() == Some((k, 0, s)) && kind.Some? && Consumed(old(input), old(stack), old(remaining), h)
      ensures old(HeadRight()) ==> HeadRight()
    {
      hide KindError, NothingLeft, Charge, BigEndian, ByteCount, ParseHead, HeadFits, Fits, WithinLimit, Moved;
      var k, n, err := Kind();
      if err.Some? {
        return Err(err.value);
      }
      ghost var (_, h, _) := old(Head()).value;
      match k {
        case Byte =>
          if byteval == 0 {
            return Err(CanonInt);
          }
          kind := None;
          return Ok(byteval);
        case String =>
          ghost var input1, stack1, remaining1 := input, stack, remaining;
          MovedBy(limited, old(input), old(stack), old(remaining), h, input1, stack1, remaining1);
          assert Readable() ==> input[..n] == old(input)[h..h + n];
          r := UintContents(n, maxbits);
          if r.Ok? {
            MovedTwice(limited, old(input), old(stack), old(remaining), h, input1, stack1, remaining1, n, input, stack, remaining);
          }
        case ListKind =>
          return Err(ExpectedString);
      }
    }

    /** The part of Uint for a string whose header has been read. */
    method UintContents(n: u64, maxbits: nat) returns (r: Result<u64>)
      requires UintBits(maxbits) && Head() == Some((String, 0, n as nat)) && kind.Some?
      modifies this`kind, this`stack, this`remaining, this`input
      ensures old(LimitsAgree()) ==> LimitsAgree()
      ensures r.Ok? <==> n <= ByteCount(maxbits) && old(Readable()) && ShortestUint(old(input)[..n])
      ensures r.Ok? ==> r.value == BigEndian(old(input)[..n]) && kind == None && Consumed(old(input), old(stack), old(remaining), n)
      ensures r.Ok? || (if n > ByteCount(maxbits) then r.error == UintOverflow
        else if old(Readable()) then r.error == CanonInt || r.error == CanonSize else Inner(r.error))
      ensures kind == None || kind == Some(String)
    {
      hide Charge, BigEndian, ByteCount, Fits, WithinLimit, Moved;
      if n > ByteCount(maxbits) {
        return Err(UintOverflow);
      }
      BigEndianNone();
      LeadingZero(input, n);
      var v, err := ReadUint(n);
      if err == Some(CanonSize) {
        return Err(CanonInt);
      } else if err.Some? {
        return Err(err.value);
      } else if n > 0 && v < 0x80 {
        return Err(CanonSize);
      }
      return Ok(v);
    }

    /** Enters a list. */
    method List() returns (r: Result<u64>)
      modifies this
      ensures limited == old(limited)
      ensures r.Ok? <==> old(Head()).Some? && old(Head()).value.0 == ListKind
      ensures r.Ok? ==> var (_, h, s) := old(Head()).value;
        r.value == s && kind == None
        && h <= |old(input)| && input == old(input)[h..]
        && remaining == old(remaining) - (if limited then h else 0)
        && stack == Charge(old(stack), h + s) + [s]
      ensures r.Ok? && old(kind) == None && old(stack) != [] ==> r.value <= old(stack)[|old(stack)| - 1]
      ensures r.Ok? && old(LimitsAgree()) ==> var (_, h, s) := old(Head()).value;
        LimitsAgree() <==> ListFits(old(stack), h + s, limited)
      ensures r.Err? && old(LimitsAgree()) ==> LimitsAgree()
      ensures old(Head()).Some? ==> r.Ok? || r.error == ExpectedList
      ensures old(kind) == None ==> (r == Err(EOL) <==> old(AtEnd(stack)))
      ensures old(kind) == None && r == Err(EOL) ==> unchanged(this)
      ensures old(kind) == None && old(Head()) == None ==>
        r.Err? && old(KindError(input, stack, limited, remaining)) == Some(r.error)
      ensures old(kind).Some? && old(kinderr).Some? ==> r == Err(old(kinderr.value))
      ensures old(Head()).Some? && old(Head()).value.0 != ListKind ==> var (k, h, s) := old(Head()).value;
        Head() == Some((k, 0, s)) && kind.Some? && Consumed(old(input), old(stack), old(remaining), h)
      ensures old(HeadRight()) ==> HeadRight()
    {
      hide KindError, AtEnd, NothingLeft, Charge, ParseHead, HeadFits, ListFits, Fits, LimitsAgree, Moved;
      var k, n, err := Kind();
      if err.Some? {
        return Err(err.value);
      }
      if k != ListKind {
        return Err(ExpectedList);
      }
      Open(n, old(input), old(stack), old(remaining), old(Head()).value.1);
      return Ok(n);
    }

    /** The part of List after the header has been seen: the size of the inner list is taken from the outer
        list and becomes a list size of its own. */
    method Open(n: u64, ghost input0: seq<u8>, ghost stack0: seq<u64>, ghost remaining0: u64, ghost h: nat)
      requires Head() == Some((ListKind, 0, n as nat)) && kind.Some?
      requires Consumed(input0, stack0, remaining0, h) && (stack0 != [] ==> h <= stack0[|stack0| - 1])
      modifies this`stack, this`kind, this`size
      ensures kind == None && size == 0
      ensures h <= |input0| && input == input0[h..] && remaining as int == remaining0 as int - (if limited then h else 0)
      ensures stack == Charge(stack0, h + n) + [n]
      ensures old(LimitsAgree()) ==> (LimitsAgree() <==> ListFits(stack0, h + n, limited))
    {
      if LimitsAgree() {
        ListLimits(stack, n, limited, remaining);
      }
      hide Charge, ListFits, WithinLimit, Moved;
      Entered(limited, input0, stack0, remaining0, h, input, stack, remaining, n, Charge(stack, n) + [n]);
      stack := Charge(stack, n) + [n];
      kind, size := None, 0;
    }

    /** Leaves a list that has been read to its end. */
    method ListEnd() returns (r: Result<()>)
      modifies this
      ensures limited == old(limited) && input == old(input) && remaining == old(remaining)
      ensures old(LimitsAgree()) ==> LimitsAgree()
      ensures r == if old(stack) == [] then Err(NotInList) else if old(AtEnd(stack)) then Ok(()) else Err(NotAtEOL)
      ensures r.Ok? ==> stack == old(stack)[..|old(stack)| - 1] && kind == None
      ensures r.Err? ==> unchanged(this)
      ensures old(HeadRight()) ==> HeadRight()
    {
      if |stack| == 0 {
        return Err(NotInList);
      } else if stack[|stack| - 1] > 0 {
        return Err(NotAtEOL);
      }
      stack := stack[..|stack| - 1];
      kind, size := None, 0;
      return Ok(());
    }

    /** The bytes of a whole value, header included. The header was read before; it is written anew. */
    method Raw() returns (r: Result<seq<u8>>)
      modifies this
      ensures limited == old(limited)
      ensures old(LimitsAgree()) ==> LimitsAgree()
      ensures r.Ok? <==> old(Readable())
      ensures r.Ok? ==> var (k, h, s) := old(Head()).value;
        kind == None && Consumed(old(input), old(stack), old(remaining), h + s)
        && r.value == if old(kind) == None then old(input)[..h + s]
                      else if k == Byte then [old(byteval)]
                      else Header(HeadTag(k), HeadLargeTag(k), s) + old(input)[..s]
      ensures old(Head()).Some? ==> r.Ok? || Inner(r.error)
      ensures old(kind) == None ==> (r == Err(EOL) <==> old(AtEnd(stack)))
      ensures old(kind) == None && r == Err(EOL) ==> unchanged(this)
      ensures old(kind) == None && old(Head()) == None ==>
        r.Err? && old(KindError(input, stack, limited, remaining)) == Some(r.error)
      ensures old(kind).Some? && old(kinderr).Some? ==> r == Err(old(kinderr.value))
      ensures old(HeadRight()) ==> HeadRight()
    {
      hide KindError, NothingLeft, Sum, Wrap, Charge, Header, ParseHead, HeadFits, Fits, WithinLimit, Moved;
      var k, n, err := Kind();
      if err.Some? {
        return Err(err.value);
      }
      ghost var (_, h, s) := old(Head()).value;
      ghost var input1, stack1, remaining1 := input, stack, remaining;
      r := RawValue(k, n);
      if r.Ok? {
        MovedTwice(limited, old(input), old(stack), old(remaining), h, input1, stack1, remaining1, s, input, stack, remaining);
        if old(kind) == None {
          RawWhole(old(input), byteval, r.value);
        }
      }
    }

    /** The part of Raw after the header, which is built anew. */
    method RawValue(k: Kind, n: u64) returns (r: Result<seq<u8>>)
      requires kind == Some(k) && Head().Some? && (k != Byte ==> size == n)
      modifies this`kind, this`stack, this`remaining, this`input
      ensures old(LimitsAgree()) ==> LimitsAgree()
      ensures r.Ok? <==> old(Readable())
      ensures r.Ok? ==> var s := old(Head()).value.2;
        r.value == if k == Byte then [byteval] else Header(HeadTag(k), HeadLargeTag(k), s) + old(input)[..s]
      ensures r.Ok? ==> kind == None && Consumed(old(input), old(stack), old(remaining), old(Head()).value.2)
      ensures r.Ok? || Inner(r.error)
      ensures kind == None
    {
      hide KindError, NothingLeft, Sum, Wrap, Charge, Header, ParseHead, HeadFits, WithinLimit;
      if k == Byte {
        ChargeTwice(stack, 0, 0);
        kind := None;
        return Ok([byteval]);
      }
      var content := ReadValue(n);
      if content.Err? {
        return content;
      }
      var buf := WithHeader(k, content.value);
      return Ok(buf);
    }
  }

  /** The header of a value, built anew, and its contents are the bytes that were there. */
  lemma {:induction false} RawWhole(b: seq<u8>, first: u8, raw: seq<u8>)
    requires ParseHead(b).Some? && var (k, h, s) := ParseHead(b).value;
      h + s <= |b| && if k == Byte then b[0] == first && raw == [first] else raw == Header(HeadTag(k), HeadLargeTag(k), s) + b[h..][..s]
    ensures var (_, h, s) := ParseHead(b).value; raw == b[..h + s]
  {
    if ParseHead(b).value.0 == Byte {
      assert b[..1] == [b[0]];
    } else {
      RawBytes(b);
    }
  }

  /** The part of Raw that lays out the result: a header in front of the contents. */
  method WithHeader(k: Kind, content: seq<u8>) returns (raw: seq<u8>)
    requires k != Byte && |content| < TWO64
    ensures raw == Header(HeadTag(k), HeadLargeTag(k), |content|) + content
  {
    hide Header;
    var n: u64 := |content|;
    var start := HeadSize(n);
    assert start == |Header(HeadTag(k), HeadLargeTag(k), n)|;
    var buf := new u8[start + n];
    Store(buf, start, content);
    var written;
    if k == String {
      written := PutHead(buf, 0, 0x80, 0xB7, n);
    } else {
      written := PutHead(buf, 0, 0xC0, 0xF7, n);
    }
    assert buf[..] == buf[..start] + buf[start..];
    raw := buf[..];
  }

  lemma {:induction false} LeadingZero(b: seq<u8>, n: nat)
    ensures n == 1 && n <= |b| && b[0] == 0 ==> BigEndian(b[..n]) == 0
  {
    if n == 1 <= |b| {
      assert b[..1] == [b[0]];
      BigEndianSingle(b[0]);
    }
  }

  lemma {:induction false} NumberFits(b: seq<u8>)
    requires |b| <= 8
    ensures BigEndian(b) < TWO64
  {
    hide Pow2;
    BigEndianBound(b);
    Bits.Pow2Words();
    Bits.Pow2Monotone(8 * |b|, 64);
  }

  /** Where the limits come apart. The inner list of these three bytes claims one byte, which its header
      has just used up in the outer list. The header is accepted, because the claim is compared with what
      the outer list had left before the header was read, and the outer size wraps around. */
  method OverdrawnList() returns (s: Stream, outer: Result<u64>, inner: Result<u64>)
    ensures s.limited && outer == Ok(1) && inner == Ok(1)
    ensures s.stack == [0xFFFF_FFFF_FFFF_FFFF, 1] && s.remaining == 1
    ensures !s.LimitsAgree()
  {
    s := new Stream([0xC1, 0xC1, 0x01], 3, None);
    assert ParseHead([0xC1, 0xC1, 0x01]) == Some((ListKind, 1, 1)) && ParseHead([0xC1, 0x01]) == Some((ListKind, 1, 1));
    hide ParseHead, Sum, Wrap;
    assert s.Head() == Some((ListKind, 1, 1));
    hide Stream.LimitsAgree;
    outer := s.List();
    assert s.input == [0xC1, 0x01] && s.stack == [1] && s.remaining == 2;
    assert s.Head() == Some((ListKind, 1, 1));
    hide HeadFits;
    inner := s.List();
    WrapDifference(0, 1);
    assert s.stack == [0xFFFF_FFFF_FFFF_FFFF, 1];
    Overdrawn(s);
  }

  lemma {:induction false} Overdrawn(s: Stream)
    requires s.limited && s.stack == [0xFFFF_FFFF_FFFF_FFFF, 1] && s.remaining == 1
    ensures !s.LimitsAgree()
  {
    SumNone();
    SumPush([], 0xFFFF_FFFF_FFFF_FFFF);
    SumPush([0xFFFF_FFFF_FFFF_FFFF], 1);
    assert [] + [0xFFFF_FFFF_FFFF_FFFF] == [0xFFFF_FFFF_FFFF_FFFF];
    assert s.stack == [0xFFFF_FFFF_FFFF_FFFF] + [1];
  }
}
