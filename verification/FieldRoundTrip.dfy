/** A whole bit stream: fields written one after the other, closed, and read back from the end. */
module FieldRoundTrip {
  import opened Bytes
  import opened Powers
  import opened BitStream

  function TotalWidth(fs: seq<Field>): nat {
    if fs == [] then 0 else TotalWidth(fs[..|fs| - 1]) + fs[|fs| - 1].width
  }

  lemma {:induction false} PushedLength(fs: seq<Field>)
    ensures PushAll(EMPTY, fs).Valid() && PushAll(EMPTY, fs).len == TotalWidth(fs)
  {
    hide Low, Shl, Pow2;
    EmptyValid();
    StackIsLifo(EMPTY, fs);
    if fs != [] { PushedLength(fs[..|fs| - 1]); }
  }

  /** The fields go in one by one, the register is flushed behind each. */
  method WriteFields(dst: array<Byte>, fs: seq<Field>) returns (size: nat)
    requires forall k :: 0 <= k < |fs| ==> fs[k].width < 32
    modifies dst
    ensures size == 0 <==> dst.Length <= REGISTER_BYTES || (TotalWidth(fs) + 1) / 8 >= dst.Length - REGISTER_BYTES
    ensures size != 0 ==> size <= dst.Length && IsStreamOf(dst[..size], PushAll(EMPTY, fs))
  {
    hide Low, Shl, Pow2, IsStreamOf;
    var stream := new CStream(dst);
    if dst.Length <= REGISTER_BYTES { return 0; }
    assert fs[..0] == [];
    for k := 0 to |fs|
      invariant stream.Valid() && stream.bitPos < 8 && fresh(stream) && stream.dst == dst && stream.bits == PushAll(EMPTY, fs[..k])
    {
      assert fs[..k + 1][..k] == fs[..k];
      stream.AddBits(fs[k].value, fs[k].width);
      stream.FlushBits();
    }
    assert fs[..|fs|] == fs;
    PushedLength(fs);
    size := stream.Close();
  }

  /** Field `n` from the end is on top of what the fields before it make. */
  lemma {:induction false} TopField(fs: seq<Field>, n: nat)
    requires 0 < n <= |fs|
    ensures
      var all, others, f := PushAll(EMPTY, fs[..n]), PushAll(EMPTY, fs[..n - 1]), fs[n - 1];
      && all.len == others.len + f.width && all.Top(f.width) == Low(f.value, f.width) && all.Pop(f.width) == others
      && others.len == TotalWidth(fs[..n - 1])
  {
    hide Low, Shl, Pow2;
    assert fs[..n][..n - 1] == fs[..n - 1];
    PushedLength(fs[..n - 1]);
    PopPush(PushAll(EMPTY, fs[..n - 1]), fs[n - 1].value, fs[n - 1].width);
  }

  /** A stream from which the first `n` fields are still to be read, with its register filled. */
  ghost predicate Holds(stream: DStream, fs: seq<Field>, n: nat)
    requires n <= |fs|
    reads stream
  {
    && stream.Valid() && !stream.Overrun() && (stream.bitsConsumed <= 8 || stream.ptr == 0)
    && stream.Remaining() == PushAll(EMPTY, fs[..n])
  }

  lemma {:induction false} HoldsEnd(stream: DStream, fs: seq<Field>, n: nat)
    requires n <= |fs| && Holds(stream, fs, n)
    ensures stream.EndOfDStream() <==> TotalWidth(fs[..n]) == 0
  {
    hide Low, Shr, Shl, Pow2;
    PushedLength(fs[..n]);
  }

  method ReadField(stream: DStream, width: nat, ghost fs: seq<Field>, ghost n: nat) returns (value: nat)
    requires 0 < n <= |fs| && width == fs[n - 1].width < 32 && Holds(stream, fs, n)
    modifies stream
    ensures Holds(stream, fs, n - 1) && value == Low(fs[n - 1].value, width)
  {
    hide Low, Shr, Shl, Pow2, PushAll;
    TopField(fs, n);
    value := stream.ReadBits(width);
    var status := stream.Reload();
  }

  /** Reading the widths backwards gives the fields, and the stream ends exactly when nothing but empty fields is left. */
  method ReadFields(src: seq<Byte>, ghost fs: seq<Field>, widths: seq<nat>) returns (values: seq<nat>, ends: seq<bool>)
    requires IsStreamOf(src, PushAll(EMPTY, fs)) && widths == ReversedWidths(fs)
    requires forall k :: 0 <= k < |fs| ==> fs[k].width < 32
    ensures values == ReversedValues(fs)
    ensures |ends| == |fs| + 1 && forall k :: 0 <= k <= |fs| ==> (ends[k] <==> TotalWidth(fs[..|fs| - k]) == 0)
  {
    hide Low, PushAll, IsStreamOf;
    StreamLastByte(src, PushAll(EMPTY, fs));
    assert fs[..|fs|] == fs;
    var stream := new DStream(src);
    var ok := stream.Init();
    HoldsEnd(stream, fs, |fs|);
    values, ends := [], [stream.EndOfDStream()];
    for k := 0 to |widths|
      invariant Holds(stream, fs, |fs| - k) && fresh(stream)
      invariant values == ReversedValues(fs)[..k]
      invariant |ends| == k + 1 && forall l :: 0 <= l <= k ==> (ends[l] <==> TotalWidth(fs[..|fs| - l]) == 0)
    {
      hide Holds;
      var value := ReadField(stream, widths[k], fs, |fs| - k);
      HoldsEnd(stream, fs, |fs| - k - 1);
      values := values + [value];
      ends := ends + [stream.EndOfDStream()];
    }
  }

  /** A sequence of fields comes back in reverse order from any buffer that it fits. */
  method RoundTrip(dst: array<Byte>, fs: seq<Field>) returns (size: nat, values: seq<nat>, ends: seq<bool>)
    requires forall k :: 0 <= k < |fs| ==> fs[k].width < 32
    modifies dst
    ensures size == 0 <==> dst.Length <= REGISTER_BYTES || (TotalWidth(fs) + 1) / 8 >= dst.Length - REGISTER_BYTES
    ensures size != 0 ==> values == ReversedValues(fs)
    ensures size != 0 ==> |ends| == |fs| + 1 && forall k :: 0 <= k <= |fs| ==> (ends[k] <==> TotalWidth(fs[..|fs| - k]) == 0)
  {
    values, ends := [], [];
    size := WriteFields(dst, fs);
    if size != 0 {
      values, ends := ReadFields(dst[..size], fs, ReversedWidths(fs));
    }
  }
}
