/** Bytes and the numbers they stand for: two halves of four bits each. */
module ByteWords {
  type Byte = bv8

  function Joined(high: bv4, low: bv4): Byte {
    ((high as bv8) << 4) | (low as bv8)
  }

  function High(b: Byte): bv4 {
    ((b >> 4) & 15) as bv4
  }

  function Low(b: Byte): bv4 {
    (b & 15) as bv4
  }

  function ToByte(v: nat): Byte
    requires v < 256
  {
    Joined((v / 16) as bv4, (v % 16) as bv4)
  }

  function FromByte(b: Byte): (v: nat)
    ensures v < 256
  {
    16 * (High(b) as nat) + (Low(b) as nat)
  }

  lemma Halves(high: bv4, low: bv4)
    ensures High(Joined(high, low)) == high && Low(Joined(high, low)) == low
  {
  }

  lemma JoinedHalves(b: Byte)
    ensures Joined(High(b), Low(b)) == b
  {
  }

  lemma HalfRoundTrip(v: nat)
    requires v < 16
    ensures (v as bv4) as nat == v
  {
  }

  lemma HalfOfNumber(h: bv4)
    ensures (h as nat) as bv4 == h
  {
  }

  lemma ByteOfNumber(v: nat)
    requires v < 256
    ensures FromByte(ToByte(v)) == v
  {
    hide High, Low, Joined;
    Halves((v / 16) as bv4, (v % 16) as bv4);
    HalfRoundTrip(v / 16);
    HalfRoundTrip(v % 16);
  }

  lemma NumberOfByte(b: Byte)
    ensures ToByte(FromByte(b)) == b
  {
    hide High, Low, Joined;
    HalfOfNumber(High(b));
    HalfOfNumber(Low(b));
    JoinedHalves(b);
    NumberHalves(FromByte(b), High(b) as nat, Low(b) as nat);
  }

  lemma NumberHalves(v: nat, high: nat, low: nat)
    requires v == 16 * high + low && low < 16
    ensures v / 16 == high && v % 16 == low
  {
  }
}
