/** Variable-length integers of the record format: seven bits a byte, lowest first. */
module Varint {
  import opened Bytes

  function ByteAt(data: Word, i: nat): Byte { if i < |data| then data[i] else 0 }

  /** Low seven bits with the continuation bit. */
  function More(v: nat): Byte { v % 128 + 128 }

  /** What WriteVarint writes behind the first byte, from three bytes on: the loop ends as soon as the
      rest is at most 128. */
  function VarintTail(v: nat): Word {
    if v / 128 > 128 then [More(v)] + VarintTail(v / 128) else [More(v), v / 128]
  }

  function VarintBytes(v: nat): (s: Word)
    ensures s != []
  {
    if v < 0x80 then [v]
    else if v / 128 < 0x80 then [More(v), v / 128]
    else [More(v)] + VarintTail(v / 128)
  }

  /** WriteVarint. */
  method WriteVarint(v: nat, out: array<Byte>, pos: nat) returns (pos': nat)
    requires v < WORD && pos + |VarintBytes(v)| <= out.Length
    modifies out
    ensures pos' == pos + |VarintBytes(v)| && out[..pos'] == old(out[..pos]) + VarintBytes(v)
  {
    if v < 0x80 {
      out[pos] := v;
      return pos + 1;
    }
    out[pos] := More(v);
    var value: nat := v / 128;
    if value < 0x80 {
      out[pos + 1] := value;
      return pos + 2;
    }
    assert out[..pos + 1] == old(out[..pos]) + [More(v)];
    pos' := WriteTail(value, out, pos + 1);
    Regroup(old(out[..pos]), [More(v)], VarintTail(value));
  }

  /** The loop, which runs at least once and stops at 128 or below. */
  method WriteTail(v: nat, out: array<Byte>, pos: nat) returns (pos': nat)
    requires pos + |VarintTail(v)| <= out.Length
    modifies out
    ensures pos' == pos + |VarintTail(v)| && out[..pos'] == old(out[..pos]) + VarintTail(v)
  {
    hide More;
    var value: nat := v;
    pos' := pos;
    ghost var done: Word := [];
    TailStep(v);
    out[pos'] := More(value);
    value, pos', done := value / 128, pos' + 1, [More(value)];
    while value > 0x80
      invariant pos' == pos + |done| && pos' < out.Length
      invariant out[..pos'] == old(out[..pos]) + done
      invariant VarintTail(v) == done + if value > 128 then VarintTail(value) else [value as Byte]
    {
      TailStep(value);
      ghost var rest := if value / 128 > 128 then VarintTail(value / 128) else [(value / 128) as Byte];
      Regroup(done, [More(value)], rest);
      Regroup(old(out[..pos]), done, [More(value)]);
      out[pos'] := More(value);
      done := done + [More(value)];
      value, pos' := value / 128, pos' + 1;
    }
    out[pos'] := value;
    Regroup(old(out[..pos]), done, [value as Byte]);
    pos' := pos' + 1;
  }

  lemma {:induction false} TailStep(v: nat)
    ensures VarintTail(v) == [More(v)] + if v / 128 > 128 then VarintTail(v / 128) else [(v / 128) as Byte]
    ensures |VarintTail(v)| >= 2
  {}

  /** What five bytes read as: the value and the number of bytes taken, none if the fifth is too large. */
  function Assemble(b0: Byte, b1: Byte, b2: Byte, b3: Byte, b4: Byte): (r: (nat, nat)) {
    if b0 < 128 then (b0, 1)
    else
      var v1 := b0 - 128 + b1 % 128 * 0x80;
      if b1 < 128 then (v1, 2)
      else
        var v2 := v1 + b2 % 128 * 0x4000;
        if b2 < 128 then (v2, 3)
        else
          var v3 := v2 + b3 % 128 * 0x20_0000;
          if b3 < 128 then (v3, 4)
          else if b4 < 16 then (v3 + b4 * 0x1000_0000, 5) else (0, 0)
  }

  /** ReadVarint. */
  function ReadVarint(data: Word, i: nat): (r: (nat, nat)) {
    Assemble(ByteAt(data, i), ByteAt(data, i + 1), ByteAt(data, i + 2), ByteAt(data, i + 3), ByteAt(data, i + 4))
  }

  /** Neither of the two loop tests meets 128 exactly. */
  predicate Storable(v: nat) { v / 128 / 128 != 128 && v / 128 / 128 / 128 != 128 }

  /** A value comes back, and exactly its bytes are taken, if and only if it is storable. */
  lemma {:induction false} VarintRoundTrip(v: nat, data: Word, i: nat)
    requires v < WORD && i + |VarintBytes(v)| <= |data| && data[i..i + |VarintBytes(v)|] == VarintBytes(v)
    ensures ReadVarint(data, i) == (v, |VarintBytes(v)|) <==> Storable(v)
  {
    hide VarintBytes, VarintTail, More, Assemble;
    var s := VarintBytes(v);
    VarintParts(v);
    assert forall k :: 0 <= k < |s| ==> data[i + k] == s[k];
    AssembleInverts(v, ByteAt(data, i), ByteAt(data, i + 1), ByteAt(data, i + 2), ByteAt(data, i + 3), ByteAt(data, i + 4));
  }

  lemma {:induction false} AssembleInverts(v: nat, b0: Byte, b1: Byte, b2: Byte, b3: Byte, b4: Byte)
    requires v < WORD
    requires
      var s := VarintBytes(v);
      && b0 == s[0] && (|s| > 1 ==> b1 == s[1]) && (|s| > 2 ==> b2 == s[2]) && (|s| > 3 ==> b3 == s[3]) && (|s| > 4 ==> b4 == s[4])
    ensures Assemble(b0, b1, b2, b3, b4) == (v, |VarintBytes(v)|) <==> Storable(v)
  {
    hide VarintBytes, VarintTail;
    VarintParts(v);
  }

  /** The bytes one by one. */
  lemma {:induction false} VarintParts(v: nat)
    requires v < WORD
    ensures
      var s := VarintBytes(v);
      var v1 := v / 128;
      var v2 := v1 / 128;
      var v3 := v2 / 128;
      var v4 := v3 / 128;
      if v < 128 then s == [v]
      else if v1 < 128 then s == [More(v), v1]
      else if v2 <= 128 then s == [More(v), More(v1), v2]
      else if v3 <= 128 then s == [More(v), More(v1), More(v2), v3]
      else v4 < 16 && s == [More(v), More(v1), More(v2), More(v3), v4]
  {
    hide More, VarintTail;
    var v1 := v / 128;
    var v2 := v1 / 128;
    var v3 := v2 / 128;
    TailStep(v1);
    TailStep(v2);
    TailStep(v3);
  }
}
