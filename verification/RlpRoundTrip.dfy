/** The encoder and the decoder of untyped trees undo each other. */
module RlpRoundTrip {
  import opened Machine
  import opened RlpSpec
  import opened RlpStream
  import opened RlpDecode
  import opened RlpEncode

  /** Every tree comes back from its encoding. */
  method DecodeEncoded(v: Item) returns (r: Result<Item>)
    requires |Enc(v)| < MAXINT
    ensures r == Ok(v)
  {
    hide Enc;
    var b := EncodeToBytes(v);
    r := DecodeBytes(b);
    assert b == Enc(v);
  }

  /** Every input that decodes is encoded again as the same bytes; and it decodes exactly if it is the
      encoding of some tree. */
  method EncodeDecoded(b: seq<u8>) returns (again: Option<seq<u8>>)
    requires |b| < MAXINT
    ensures again.Some? ==> again.value == b
    ensures again.Some? <==> exists v :: b == Enc(v)
  {
    hide Enc;
    var r := DecodeBytes(b);
    if r.Err? {
      return None;
    }
    var out := EncodeToBytes(r.value);
    return Some(out);
  }
}
