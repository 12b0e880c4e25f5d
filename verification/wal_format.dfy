/** The byte layout of a physical log: little-endian fields, the two headers, records padded
    to the alignment. */
module WalFormat {
  import opened ByteWords
  import opened Crc32

  const U32: nat := 0x1_0000_0000
  const U64: nat := 0x1_0000_0000_0000_0000

  // ---------------------------------------------------------------- little-endian numbers

  function LE(v: nat, n: nat): (bytes: seq<Byte>)
    ensures |bytes| == n
  {
    if n == 0 then [] else [ToByte(v % 256)] + LE(v / 256, n - 1)
  }

  function Number(bytes: seq<Byte>): nat {
    if bytes == [] then 0 else FromByte(bytes[0]) + 256 * Number(bytes[1..])
  }

  function Pow256(n: nat): nat {
    if n == 0 then 1 else 256 * Pow256(n - 1)
  }

  lemma {:induction false} NumberOfLE(v: nat, n: nat)
    requires v < Pow256(n)
    ensures Number(LE(v, n)) == v
    decreases n
  {
    hide ToByte, FromByte;
    if n > 0 {
      NumberOfLE(v / 256, n - 1);
      ByteOfNumber(v % 256);
      assert LE(v, n)[1..] == LE(v / 256, n - 1);
    }
  }

  lemma DivMod(low: nat, high: nat)
    requires low < 256
    ensures (low + 256 * high) % 256 == low && (low + 256 * high) / 256 == high
  {
  }

  lemma {:induction false} LEOfNumber(bytes: seq<Byte>)
    ensures LE(Number(bytes), |bytes|) == bytes && Number(bytes) < Pow256(|bytes|)
    decreases |bytes|
  {
    hide ToByte, FromByte;
    if bytes != [] {
      LEOfNumber(bytes[1..]);
      NumberOfByte(bytes[0]);
      var rest := Number(bytes[1..]);
      DivMod(FromByte(bytes[0]), rest);
    }
  }

  // ---------------------------------------------------------------- headers as rows of fields

  function Total(widths: seq<nat>): nat {
    if widths == [] then 0 else widths[0] + Total(widths[1..])
  }

  function Pack(widths: seq<nat>, fields: seq<nat>): (bytes: seq<Byte>)
    requires |widths| == |fields|
    ensures |bytes| == Total(widths)
  {
    if widths == [] then [] else LE(fields[0], widths[0]) + Pack(widths[1..], fields[1..])
  }

  function Unpack(widths: seq<nat>, bytes: seq<Byte>): (fields: seq<nat>)
    requires |bytes| == Total(widths)
    ensures |fields| == |widths|
  {
    if widths == [] then [] else [Number(bytes[..widths[0]])] + Unpack(widths[1..], bytes[widths[0]..])
  }

  ghost predicate Fits(widths: seq<nat>, fields: seq<nat>) {
    |widths| == |fields| && forall i :: 0 <= i < |fields| ==> fields[i] < Pow256(widths[i])
  }

  lemma {:induction false} UnpackOfPack(widths: seq<nat>, fields: seq<nat>)
    requires Fits(widths, fields)
    ensures Unpack(widths, Pack(widths, fields)) == fields
    decreases |widths|
  {
    if widths != [] {
      var here, rest := LE(fields[0], widths[0]), Pack(widths[1..], fields[1..]);
      UnpackOfPack(widths[1..], fields[1..]);
      NumberOfLE(fields[0], widths[0]);
      assert (here + rest)[..widths[0]] == here && (here + rest)[widths[0]..] == rest;
    }
  }

  lemma {:induction false} PackOfUnpack(widths: seq<nat>, bytes: seq<Byte>)
    requires |bytes| == Total(widths)
    ensures Pack(widths, Unpack(widths, bytes)) == bytes && Fits(widths, Unpack(widths, bytes))
    decreases |widths|
  {
    if widths != [] {
      PackOfUnpack(widths[1..], bytes[widths[0]..]);
      LEOfNumber(bytes[..widths[0]]);
      assert bytes == bytes[..widths[0]] + bytes[widths[0]..];
      assert Unpack(widths, bytes)[1..] == Unpack(widths[1..], bytes[widths[0]..]);
    }
  }

  lemma {:induction false} TotalConcat(a: seq<nat>, b: seq<nat>)
    ensures Total(a + b) == Total(a) + Total(b)
    decreases |a|
  {
    if a == [] {
      assert a + b == b;
    } else {
      assert (a + b)[1..] == a[1..] + b;
      TotalConcat(a[1..], b);
    }
  }

  lemma {:induction false} PackConcat(w: seq<nat>, f: seq<nat>, w': seq<nat>, f': seq<nat>)
    requires |w| == |f| && |w'| == |f'|
    ensures Pack(w + w', f + f') == Pack(w, f) + Pack(w', f')
    decreases |w|
  {
    if w == [] {
      assert w + w' == w' && f + f' == f';
    } else {
      assert (w + w')[1..] == w[1..] + w' && (f + f')[1..] == f[1..] + f';
      PackConcat(w[1..], f[1..], w', f');
    }
  }

  /** Repacking a header with another last field replaces exactly the bytes of that field. */
  lemma RepackLast(widths: seq<nat>, last: nat, bytes: seq<Byte>, v: nat)
    requires |bytes| == Total(widths + [last])
    ensures |bytes| == Total(widths) + last
    ensures var fields := Unpack(widths + [last], bytes);
            Pack(widths + [last], fields[..|widths|] + [v]) == bytes[..Total(widths)] + LE(v, last)
    ensures Unpack(widths + [last], bytes)[|widths|] == Number(bytes[Total(widths)..])
  {
    TotalConcat(widths, [last]);
    assert Total([last]) == last + Total([]) by {
      assert [last][1..] == [];
    }
    var fields := Unpack(widths + [last], bytes);
    PackOfUnpack(widths + [last], bytes);
    var f := fields[..|widths|];
    assert fields == f + [fields[|widths|]];
    PackConcat(widths, f, [last], [fields[|widths|]]);
    PackConcat(widths, f, [last], [v]);
    PackOne(last, v);
    PackOne(last, fields[|widths|]);
    assert bytes == Pack(widths, f) + LE(fields[|widths|], last);
    assert Fits(widths + [last], fields);
    assert (widths + [last])[|widths|] == last;
    NumberOfLE(fields[|widths|], last);
  }

  lemma PackOne(w: nat, v: nat)
    ensures Pack([w], [v]) == LE(v, w)
  {
    assert [w][1..] == [] && [v][1..] == [];
    assert LE(v, w) + [] == LE(v, w);
  }
}
