/** Whole values to fresh bytes and back. */
module Serializers {
  import opened Bytes
  import opened Blueprints
  import opened RoundTrip
  import opened Placements
  import Codec

  ghost function Zeros(n: nat): (s: seq<byte>)
    ensures |s| == n
  {
    seq(n, _ => 0)
  }

  ghost function Encoded(bp: Blueprint, v: Value): (s: seq<byte>)
    requires Sound(bp) && Typed(bp, v)
    ensures |s| == Size(bp)
  {
    To(bp, v, Zeros(Size(bp)))
  }

  method Serialize(bp: Blueprint, v: Value) returns (data: seq<byte>)
    requires Sound(bp) && Typed(bp, v)
    ensures data == Encoded(bp, v)
    ensures forall i :: 0 <= i < |data| && !Writes(bp, v, i) ==> data[i] == 0
  {
    hide Sound, Typed, To, Size, Writes;
    var bytes := new byte[Size(bp)](_ => 0);
    ghost var zeros := bytes[..];
    assert zeros == Zeros(Size(bp));
    assert bytes[0..0 + Size(bp)] == zeros;
    Codec.WriteTo(bp, v, bytes, 0);
    data := bytes[..];
    assert Patched(zeros, 0, Encoded(bp, v)) == Encoded(bp, v);
    forall i | 0 <= i < |data| && !Writes(bp, v, i) ensures data[i] == 0 {
      WrittenOrKept(bp, v, Zeros(Size(bp)), Zeros(Size(bp)), i);
    }
  }

  method Deserialize(bp: Blueprint, data: seq<byte>) returns (v: Value)
    requires Sound(bp) && Size(bp) <= |data| && Readable(bp, data[..Size(bp)])
    ensures v == From(bp, data[..Size(bp)])
  {
    hide Sound, Readable, From, Size;
    var bytes := new byte[|data|](i requires 0 <= i < |data| => data[i]);
    assert bytes[0..0 + Size(bp)] == data[..Size(bp)];
    v := Codec.ReadFrom(bp, bytes, 0);
  }

  /** What is serialized is read back, cut to its layout; whatever follows it does not matter. */
  lemma SerializeThenDeserialize(bp: Blueprint, v: Value, rest: seq<byte>)
    requires Sound(bp) && Typed(bp, v)
    ensures var data := Encoded(bp, v) + rest;
            Readable(bp, data[..Size(bp)]) && From(bp, data[..Size(bp)]) == Cut(bp, v)
  {
    hide Sound, Typed, To, Size, Cut, From, Readable;
    ToThenFrom(bp, v, Zeros(Size(bp)));
    assert (Encoded(bp, v) + rest)[..Size(bp)] == Encoded(bp, v);
  }
}
