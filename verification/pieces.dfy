/** Rows of fields as pieces of a file or payload, one after the other. */
module Pieces {
  import opened ByteWords
  import opened WalFormat

  function Flatten(pieces: seq<seq<Byte>>): seq<Byte> {
    if pieces == [] then [] else pieces[0] + Flatten(pieces[1..])
  }

  lemma {:induction false} PackIsFlat(w: seq<nat>, f: seq<nat>, pieces: seq<seq<Byte>>)
    requires |w| == |f| == |pieces| && forall i :: 0 <= i < |w| ==> pieces[i] == LE(f[i], w[i])
    ensures Pack(w, f) == Flatten(pieces)
    decreases |w|
  {
    hide LE;
    if w != [] {
      PackIsFlat(w[1..], f[1..], pieces[1..]);
    }
  }

  lemma {:induction false} FlattenConcat(a: seq<seq<Byte>>, b: seq<seq<Byte>>)
    ensures Flatten(a + b) == Flatten(a) + Flatten(b)
    decreases |a|
  {
    if a == [] {
      assert a + b == b;
    } else {
      FlattenConcat(a[1..], b);
      assert (a + b)[1..] == a[1..] + b;
    }
  }
}
