/** Addresses: a varint tag and data, with four bytes of a hash behind them, in base 58. */
module Address {
  import opened Arith
  import opened Varint
  import opened Base58
  import opened Wrappers

  type Hash = h: Bytes | |h| == 32 witness seq(32, _ => 0)

  function WithChecksum(hash: Bytes -> Hash, payload: Bytes): Bytes {
    payload + hash(payload)[..4]
  }

  function EncodeAddr(hash: Bytes -> Hash, tag: nat, data: Bytes): string {
    Base58.Encoded(WithChecksum(hash, Varint.Encoded(tag) + data))
  }

  /** The bytes before a checksum that matches them. */
  function Payload(hash: Bytes -> Hash, addr: string): Option<Bytes> {
    match Decoded(addr)
    case None => None
    case Some(d) =>
      if |d| <= 4 then None
      else if hash(d[..|d| - 4])[..4] != d[|d| - 4..] then None
      else Some(d[..|d| - 4])
  }

  function DecodeAddr(hash: Bytes -> Hash, addr: string): Option<(nat, Bytes)> {
    match Payload(hash, addr)
    case None => None
    case Some(payload) =>
      match ReadAll(64, payload)
      case Read(count, tag) =>
        ReadIsWritten(64, payload);
        if count == 0 then None else Some((tag, payload[count..]))
      case _ => None
  }

  lemma PayloadIs(hash: Bytes -> Hash, payload: Bytes)
    requires payload != []
    ensures Payload(hash, Base58.Encoded(WithChecksum(hash, payload))) == Some(payload)
  {
    hide Base58.Encoded, Base58.Decoded;
    var d := WithChecksum(hash, payload);
    DecodeEncoded(d);
    assert d[..|d| - 4] == payload && d[|d| - 4..] == hash(payload)[..4];
  }

  /** Every tag of 64 bits and all data come back, whatever the hash. */
  lemma DecodeAddrEncoded(hash: Bytes -> Hash, tag: nat, data: Bytes)
    requires tag < Pow2(64)
    ensures DecodeAddr(hash, EncodeAddr(hash, tag, data)) == Some((tag, data))
  {
    hide Base58.Encoded, Varint.Encoded, ReadAll, Payload, Pow2;
    EncodedEnds(tag);
    var payload := Varint.Encoded(tag) + data;
    PayloadIs(hash, payload);
    ReadWritten(64, tag, data);
    assert payload[|Varint.Encoded(tag)|..] == data;
  }

  /** Encoding what an accepted address holds gives that address back exactly when its payload
      has a byte without continuation flag, that is, when its tag ends before the checksum. */
  lemma EncodeAddrDecodedIff(hash: Bytes -> Hash, addr: string)
    requires DecodeAddr(hash, addr).Some?
    ensures var (tag, data) := DecodeAddr(hash, addr).value; var payload := Payload(hash, addr).value;
            EncodeAddr(hash, tag, data) == addr <==> exists i :: 0 <= i < |payload| && payload[i] < 128
  {
    hide Base58.Encoded, Base58.Decoded, Varint.Encoded, ReadAll, Pow2;
    var payload := Payload(hash, addr).value;
    var d := Decoded(addr).value;
    var r := ReadAll(64, payload);
    ReadIsWritten(64, payload);
    if payload[r.count - 1] < 128 {
      assert payload[..r.count] + payload[r.count..] == payload;
      assert WithChecksum(hash, payload) == d;
      EncodeDecoded(addr);
    } else {
      EncodedEnds(r.value);
      var other := Varint.Encoded(r.value) + payload[r.count..];
      assert other == Varint.Encoded(r.value);
      PayloadIs(hash, other);
      assert other[|other| - 1] < 128;
    }
  }

  /** The address of the single byte 0x80, whose tag never ends, is accepted as tag 0; tag 0 is
      encoded differently. */
  lemma UnendedTag(hash: Bytes -> Hash)
    ensures var addr := Base58.Encoded(WithChecksum(hash, [0x80]));
            DecodeAddr(hash, addr) == Some((0, [])) && EncodeAddr(hash, 0, []) != addr
  {
    hide Base58.Encoded, Base58.Decoded;
    var payload: Bytes := [0x80];
    PayloadIs(hash, payload);
    assert ReadAll(64, payload) == Read(1, 0) by {
      assert ReadFrom(64, payload, 1, 0) == Read(1, 0);
    }
    assert payload[1..] == [];
    EncodeAddrDecodedIff(hash, Base58.Encoded(WithChecksum(hash, payload)));
  }
}
