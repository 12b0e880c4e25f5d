/** One changed byte in a row of fields changes the one field that holds it. */
module FieldDamage {
  import opened ByteWords
  import opened Crc32
  import opened WalFormat
  import opened WalLog

  /** The number of the field that holds byte `i`. */
  function FieldOf(widths: seq<nat>, i: nat): (k: nat)
    requires i < Total(widths)
    ensures k < |widths|
  {
    if i < widths[0] then 0 else 1 + FieldOf(widths[1..], i - widths[0])
  }

  lemma {:induction false} OneFieldChanges(widths: seq<nat>, bytes: seq<Byte>, i: nat, b: Byte)
    requires |bytes| == Total(widths) && i < |bytes| && b != bytes[i]
    ensures forall k :: 0 <= k < |widths| ==>
              (Unpack(widths, bytes[i := b])[k] == Unpack(widths, bytes)[k] <==> k != FieldOf(widths, i))
    decreases |widths|
  {
    hide Number;
    var n := widths[0];
    if i < n {
      assert bytes[i := b][..n] == bytes[..n][i := b] && bytes[i := b][n..] == bytes[n..];
      assert bytes[..n][i := b] != bytes[..n] by {
        assert bytes[..n][i := b][i] == b;
      }
      if Number(bytes[..n][i := b]) == Number(bytes[..n]) {
        NumberInjective(bytes[..n][i := b], bytes[..n]);
      }
    } else {
      assert bytes[i := b][..n] == bytes[..n] && bytes[i := b][n..] == bytes[n..][i - n := b];
      OneFieldChanges(widths[1..], bytes[n..], i - n, b);
    }
  }

  /** The first three fields of both headers are four, two and two bytes wide. */
  lemma FirstFields(widths: seq<nat>, i: nat)
    requires |widths| > 3 && widths[0] == 4 && widths[1] == 2 && widths[2] == 2 && i < Total(widths)
    ensures FieldOf(widths, i) == 0 <==> i < 4
    ensures FieldOf(widths, i) == 1 <==> 4 <= i < 6
    ensures FieldOf(widths, i) == 2 <==> 6 <= i < 8
  {
    assert widths[1..][0] == 2 && widths[1..][1..] == widths[2..] && widths[2..][0] == 2;
    if i >= 4 {
      assert FieldOf(widths, i) == 1 + FieldOf(widths[1..], i - 4);
      if i >= 6 {
        assert FieldOf(widths[1..], i - 4) == 1 + FieldOf(widths[2..], i - 6);
      }
    }
  }

  /** Which of the first fields of a sealed header differ behind one changed byte. */
  lemma SealedDamage(widths: seq<nat>, fields: seq<nat>, i: nat, b: Byte)
    requires Fits(widths, fields) && |widths| > 3 && widths[0] == 4 && widths[1] == 2 && widths[2] == 2
    requires |Sealed(widths, fields)| == Total(widths + [4]) && i < |Sealed(widths, fields)|
      && b != Sealed(widths, fields)[i]
    ensures var all := Unpack(widths + [4], Sealed(widths, fields)[i := b]);
      && (all[0] == fields[0] <==> i >= 4)
      && (all[1] == fields[1] <==> !(4 <= i < 6))
      && (all[2] == fields[2] <==> !(6 <= i < 8))
      && !Intact(widths, Sealed(widths, fields)[i := b])
  {
    hide Sealed, Unpack, Total, Intact, FieldOf;
    var w := widths + [4];
    SealedIsIntact(widths, fields);
    DamageIsSeen(widths, fields, i, b);
    OneFieldChanges(w, Sealed(widths, fields), i, b);
    FirstFields(w, i);
    var before := Unpack(w, Sealed(widths, fields));
    assert before[0] == before[..|widths|][0] && before[1] == before[..|widths|][1]
      && before[2] == before[..|widths|][2];
  }
}
