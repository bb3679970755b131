/** The bit streams of the entropy coders: an encoder that packs bit fields into a 64-bit
    register and spills whole bytes into a buffer, and a decoder that reads the fields back
    from the end. Both are proved against one abstract value, a stack of bits. */
module BitStream {
  import opened Powers
  import opened Bytes

  const REGISTER_BITS: nat := 64
  const REGISTER_BYTES: nat := 8

  // ---------------------------------------------------------------- bit stacks

  /** `len` bits; the field pushed last sits in the highest bits of `val`. */
  datatype Bits = Bits(val: nat, len: nat) {
    predicate Valid() { val < Pow2(len) }

    function Push(v: nat, nb: nat): Bits {
      Bits(val + Shl(Low(v, nb), len), len + nb)
    }

    function Top(nb: nat): nat
      requires nb <= len
    {
      Shr(val, len - nb)
    }

    function Pop(nb: nat): Bits
      requires nb <= len
    {
      Bits(Low(val, len - nb), len - nb)
    }
  }

  const EMPTY := Bits(0, 0)

  lemma {:induction false} EmptyValid()
    ensures EMPTY.Valid()
  {}

  /** Popping what was just pushed gives back the field and the stack below it. */
  lemma {:induction false} PopPush(b: Bits, v: nat, nb: nat)
    requires b.Valid()
    ensures b.Push(v, nb).Valid()
    ensures b.Push(v, nb).Top(nb) == Low(v, nb)
    ensures b.Push(v, nb).Pop(nb) == b
  {
    hide Low, Shr, Shl, Pow2;
    LowShr(v, nb);
    SplitUnique(b.val, Low(v, nb), b.len);
    ShlBound(Low(v, nb), nb, b.len);
  }

  /** A written field: a value and its width. */
  datatype Field = Field(value: nat, width: nat)

  function PushAll(b: Bits, fs: seq<Field>): Bits {
    if fs == [] then b else PushAll(b, fs[..|fs| - 1]).Push(fs[|fs| - 1].value, fs[|fs| - 1].width)
  }

  /** Reading the given widths from the top of the stack. */
  datatype ReadBack = TooShort | Fields(values: seq<nat>, rest: Bits)

  function PopAll(b: Bits, widths: seq<nat>): ReadBack
    decreases |widths|
  {
    if widths == [] then Fields([], b)
    else if widths[0] > b.len then TooShort
    else
      match PopAll(b.Pop(widths[0]), widths[1..])
      case TooShort => TooShort
      case Fields(vs, rest) => Fields([b.Top(widths[0])] + vs, rest)
  }

  function ReversedWidths(fs: seq<Field>): seq<nat> {
    seq(|fs|, i requires 0 <= i < |fs| => fs[|fs| - 1 - i].width)
  }

  function ReversedValues(fs: seq<Field>): seq<nat> {
    seq(|fs|, i requires 0 <= i < |fs| => Low(fs[|fs| - 1 - i].value, fs[|fs| - 1 - i].width))
  }

  /** Whatever was pushed comes back in reverse order, leaving the stack as it was. */
  lemma {:induction false} StackIsLifo(b: Bits, fs: seq<Field>)
    requires b.Valid()
    ensures PushAll(b, fs).Valid()
    ensures PopAll(PushAll(b, fs), ReversedWidths(fs)) == Fields(ReversedValues(fs), b)
  {
    if fs != [] {
      var n := |fs| - 1;
      var init := fs[..n];
      StackIsLifo(b, init);
      PopPush(PushAll(b, init), fs[n].value, fs[n].width);
      assert ReversedWidths(fs)[1..] == ReversedWidths(init);
      assert ReversedValues(fs) == [Low(fs[n].value, fs[n].width)] + ReversedValues(init);
    }
  }

  // ---------------------------------------------------------------- little-endian bytes

  function FromLE(s: seq<Byte>): nat {
    if s == [] then 0 else s[0] + Shl(FromLE(s[1..]), 8)
  }

  function ToLE(v: nat, n: nat): (s: seq<Byte>)
    ensures |s| == n
    decreases n
  {
    if n == 0 then [] else LowShr(v, 8); [Low(v, 8)] + ToLE(Shr(v, 8), n - 1)
  }

  lemma {:induction false} ByteBound()
    ensures Pow2(8) == 256
  {}

  lemma {:induction false} FromLEBound(s: seq<Byte>)
    ensures FromLE(s) < Pow2(8 * |s|)
  {
    if s != [] {
      FromLEBound(s[1..]);
      ByteBound();
      ShlBound(FromLE(s[1..]), 8 * |s[1..]|, 8);
    }
  }

  lemma {:induction false} FromLEConcat(s: seq<Byte>, t: seq<Byte>)
    ensures FromLE(s + t) == FromLE(s) + Shl(FromLE(t), 8 * |s|)
  {
    if s == [] {
      assert s + t == t;
    } else {
      assert (s + t)[1..] == s[1..] + t;
      FromLEConcat(s[1..], t);
      ShlAdd(FromLE(s[1..]), Shl(FromLE(t), 8 * |s[1..]|), 8);
      ShlShl(FromLE(t), 8 * |s[1..]|, 8);
    }
  }

  lemma {:induction false} FromLEPrefix(s: seq<Byte>, k: nat)
    requires k <= |s|
    ensures FromLE(s[..k]) == Low(FromLE(s), 8 * k)
    ensures FromLE(s[k..]) == Shr(FromLE(s), 8 * k)
  {
    hide Low, Shr, Shl, Pow2;
    assert s == s[..k] + s[k..];
    FromLEConcat(s[..k], s[k..]);
    FromLEBound(s[..k]);
    SplitUnique(FromLE(s[..k]), FromLE(s[k..]), 8 * k);
  }

  lemma {:induction false} FromToLE(v: nat, n: nat)
    ensures FromLE(ToLE(v, n)) == Low(v, 8 * n)
    decreases n
  {
    if n > 0 {
      var w := Low(v, 8 * n);
      FromToLE(Shr(v, 8), n - 1);
      assert ToLE(v, n)[1..] == ToLE(Shr(v, 8), n - 1);
      LowShr(w, 8);
      LowLow(v, 8, 8 * n);
      ShrLow(v, 8, 8 * (n - 1));
    }
  }

  /** The highest set bit of a little-endian number with a nonzero last byte. */
  lemma {:induction false} FromLEHighBit(s: seq<Byte>)
    requires s != [] && s[|s| - 1] != 0
    ensures FromLE(s) > 0
    ensures HighBit(FromLE(s)) == 8 * (|s| - 1) + HighBit(s[|s| - 1])
  {
    var k := |s| - 1;
    var last := s[k];
    assert s == s[..k] + [last];
    FromLEConcat(s[..k], [last]);
    FromLEOne(last);
    FromLEBound(s[..k]);
    HighBitShl(FromLE(s[..k]), last, 8 * k);
  }

  lemma {:induction false} FromLEOne(b: Byte)
    ensures FromLE([b]) == b
  {
    ShlOne(8);
    assert [b][1..] == [];
  }

  // ---------------------------------------------------------------- encoder

  /** `s` is the byte form of the bits `b` under a final end mark. */
  ghost predicate IsStreamOf(s: seq<Byte>, b: Bits) {
    && b.Valid()
    && FromLE(s) == b.val + Pow2(b.len)
    && |s| == b.len / 8 + 1
  }

  class CStream {
    const dst: array<Byte>
    /** The register; bits at and above `bitPos` are zero, so or-ing a field in is adding it. */
    var container: nat
    var bitPos: nat
    var ptr: nat
    const endPtr: int
    /** Everything added so far, and whether `ptr` was ever pulled back to `endPtr`. */
    ghost var bits: Bits
    ghost var clamped: bool

    ghost predicate Valid()
      reads this, dst
    {
      && endPtr == dst.Length - REGISTER_BYTES
      && 0 < endPtr
      && ptr <= endPtr
      && bits.Valid()
      && bitPos < REGISTER_BITS && container < Pow2(bitPos)
      && (clamped ==> ptr == endPtr && bits.len / 8 > endPtr)
      && (!clamped ==> Exact())
    }

    ghost predicate Exact()
      requires ptr <= dst.Length
      reads this, dst
    {
      && bits.len == 8 * ptr + bitPos
      && container == Shr(bits.val, 8 * ptr)
      && FromLE(dst[..ptr]) == Low(bits.val, 8 * ptr)
    }

    /** The checks of initCStream: `Valid` holds exactly when the capacity exceeds the register. */
    constructor (dst: array<Byte>)
      ensures this.dst == dst && bits == EMPTY && !clamped && bitPos == 0
      ensures Valid() <==> dst.Length > REGISTER_BYTES
      ensures endPtr == dst.Length - REGISTER_BYTES
    {
      this.dst := dst;
      container, bitPos, ptr := 0, 0, 0;
      endPtr := dst.Length - REGISTER_BYTES;
      bits, clamped := EMPTY, false;
    }

    method AddBits(value: nat, nbBits: nat)
      requires Valid() && nbBits < 32 && bitPos + nbBits < REGISTER_BITS
      modifies this
      ensures Valid()
      ensures bits == old(bits).Push(value, nbBits)
      ensures bitPos == old(bitPos) + nbBits && clamped == old(clamped) && ptr == old(ptr)
    {
      hide Low, Shr, Shl, Pow2;
      ghost var v := Low(value, nbBits);
      PopPush(bits, value, nbBits);
      LowShr(value, nbBits);
      ShlBound(v, nbBits, bitPos);
      if !clamped {
        AddAbove(bits.val, Shl(v, bitPos), 8 * ptr);
        ShlShl(v, bitPos, 8 * ptr);
      }
      container := container + Shl(Low(value, nbBits), bitPos);
      bitPos := bitPos + nbBits;
      bits := bits.Push(value, nbBits);
    }

    /** Stores the register at `ptr`, least significant byte first. */
    method WriteRegister()
      requires Valid()
      modifies dst
      ensures Valid()
      ensures dst[..ptr] == old(dst[..ptr])
      ensures dst[ptr..ptr + REGISTER_BYTES] == ToLE(container, REGISTER_BYTES)
    {
      hide FromLE, ToLE, Low, Shr, Shl, Pow2;
      var bytes := ToLE(container, REGISTER_BYTES);
      forall k | 0 <= k < REGISTER_BYTES {
        dst[ptr + k] := bytes[k];
      }
      assert dst[ptr..ptr + REGISTER_BYTES] == bytes;
      assert dst[..ptr] == old(dst[..ptr]);
    }

    /** Spills the whole bytes of the register; `ptr` never passes `endPtr`, and the loss is
        remembered only by `ptr` staying at `endPtr`. */
    method FlushBits()
      requires Valid()
      modifies this, dst
      ensures Valid() && Spilled() && bits == old(bits) && bitPos == old(bitPos) % 8
      ensures clamped <==> bits.len / 8 > endPtr
    {
      hide Low, Shr, Shl, Pow2;
      hide FromLE, ToLE;
      WriteRegister();
      var nbBytes := bitPos / 8;
      ShrBoundBy(container, 8 * nbBytes, bitPos);
      if !clamped { Spill(dst[..], bits.val, ptr, container, bitPos, ptr + nbBytes); }
      ptr := ptr + nbBytes;
      if ptr > endPtr {
        ptr := endPtr;
        clamped := true;
      }
      bitPos := bitPos % 8;
      container := Shr(container, 8 * nbBytes);
    }

    /** The unchecked flush: it spills the same bytes but lets `ptr` pass `endPtr`. Once that has happened the next
        flush, checked or not, stores behind the buffer; the model goes no further than to report it. */
    method FlushBitsFast() returns (inside: bool)
      requires Valid() && !clamped
      modifies this, dst
      ensures inside <==> old(bits).len / 8 <= endPtr
      ensures inside ==> Valid() && Spilled() && bits == old(bits) && bitPos == old(bitPos) % 8 && !clamped
    {
      hide Low, Shr, Shl, Pow2;
      hide FromLE, ToLE;
      WriteRegister();
      var nbBytes := bitPos / 8;
      ShrBoundBy(container, 8 * nbBytes, bitPos);
      Spill(dst[..], bits.val, ptr, container, bitPos, ptr + nbBytes);
      ptr := ptr + nbBytes;
      bitPos := bitPos % 8;
      container := Shr(container, 8 * nbBytes);
      inside := ptr <= endPtr;
    }

    /** After a flush the partially filled byte is in the buffer too. */
    ghost predicate Spilled()
      requires Valid()
      reads this, dst
    {
      !clamped ==> FromLE(dst[..ptr + 1]) == Low(bits.val, 8 * (ptr + 1))
    }

    /** Adds the end mark and spills. A nonzero size means the first `size` bytes are the stream;
        zero is returned exactly when the stream reaches the last eight bytes of the buffer. */
    method Close() returns (size: nat)
      requires Valid() && bitPos + 1 < REGISTER_BITS
      modifies this, dst
      ensures size == 0 <==> (old(bits).len + 1) / 8 >= endPtr
      ensures size != 0 ==> size <= dst.Length && IsStreamOf(dst[..size], old(bits))
    {
      hide Low, Shr, Shl, Pow2;
      ghost var b := bits;
      LowOne();
      ShlOne(b.len);
      AddBits(1, 1);
      FlushBits();
      if ptr >= endPtr { return 0; }
      size := ptr + if bitPos > 0 then 1 else 0;
      Pow2Mono(b.len + 1, 8 * size);
      LowSmall(b.val + Pow2(b.len), 8 * size);
    }
  }

  lemma {:induction false} LowOne()
    ensures Low(1, 1) == 1
  {}

  lemma {:induction false} ShrBoundBy(container: nat, k: nat, bitPos: nat)
    requires k <= bitPos && container < Pow2(bitPos)
    ensures Shr(container, k) < Pow2(bitPos - k)
  {
    ShrBound(container, k, bitPos - k);
  }

  /** Writing the register behind the spilled bytes puts the whole value into the buffer. */
  lemma {:induction false} SpillWhole(s: seq<Byte>, val: nat, ptr: nat, container: nat, bitPos: nat)
    requires |s| == ptr + REGISTER_BYTES
    requires bitPos < REGISTER_BITS && container < Pow2(bitPos)
    requires container == Shr(val, 8 * ptr)
    requires FromLE(s[..ptr]) == Low(val, 8 * ptr)
    requires s[ptr..] == ToLE(container, REGISTER_BYTES)
    ensures FromLE(s) == val
  {
    hide FromLE, ToLE, Low, Shr, Shl, Pow2;
    assert s == s[..ptr] + s[ptr..];
    FromLEConcat(s[..ptr], s[ptr..]);
    FromToLE(container, REGISTER_BYTES);
    Pow2Mono(bitPos, 64);
    LowSmall(container, 64);
    LowShr(val, 8 * ptr);
  }

  lemma {:induction false} Spill(buf: seq<Byte>, val: nat, ptr: nat, container: nat, bitPos: nat, next: nat)
    requires ptr + REGISTER_BYTES <= |buf|
    requires bitPos < REGISTER_BITS && container < Pow2(bitPos)
    requires container == Shr(val, 8 * ptr)
    requires FromLE(buf[..ptr]) == Low(val, 8 * ptr)
    requires buf[ptr..ptr + REGISTER_BYTES] == ToLE(container, REGISTER_BYTES)
    requires ptr <= next < ptr + REGISTER_BYTES
    ensures FromLE(buf[..next]) == Low(val, 8 * next)
    ensures FromLE(buf[..next + 1]) == Low(val, 8 * (next + 1))
    ensures Shr(container, 8 * (next - ptr)) == Shr(val, 8 * next)
  {
    hide FromLE, ToLE, Low, Shr, Shl, Pow2;
    var s := buf[..ptr + REGISTER_BYTES];
    assert s[..ptr] == buf[..ptr] && s[ptr..] == buf[ptr..ptr + REGISTER_BYTES];
    SpillWhole(s, val, ptr, container, bitPos);
    FromLEPrefix(s, next);
    FromLEPrefix(s, next + 1);
    assert s[..next] == buf[..next] && s[..next + 1] == buf[..next + 1];
    ShrShr(val, 8 * ptr, 8 * (next - ptr));
  }

  // ---------------------------------------------------------------- decoder

  datatype Status = Unfinished | EndOfBuffer | Completed | Overflow

  class DStream {
    const src: seq<Byte>
    var container: nat
    var bitsConsumed: nat
    var ptr: nat

    ghost predicate Valid()
      reads this
    {
      && src != []
      && (ptr == 0 || ptr + REGISTER_BYTES <= |src|)
      && container == Low(Shr(FromLE(src), 8 * ptr), REGISTER_BITS)
    }

    /** Some bits may have been read past the beginning. */
    predicate Overrun()
      reads this
    {
      bitsConsumed > REGISTER_BITS
    }

    /** The fields not yet read. */
    ghost function Remaining(): Bits
      requires !Overrun()
      reads this
    {
      var len := 8 * ptr + REGISTER_BITS - bitsConsumed;
      Bits(Low(FromLE(src), len), len)
    }

    constructor (src: seq<Byte>)
      ensures this.src == src
    {
      this.src := src;
      container, bitsConsumed, ptr := 0, 0, 0;
    }

    /** initDStream: fails on an empty source or a zero last byte; otherwise everything below the
        end mark remains to be read. */
    method Init() returns (ok: bool)
      modifies this
      ensures ok <==> src != [] && src[|src| - 1] != 0
      ensures ok ==> Valid() && !Overrun() && (bitsConsumed <= 8 || ptr == 0)
      ensures ok ==> forall b: Bits {:trigger IsStreamOf(src, b)} :: IsStreamOf(src, b) ==> Remaining() == b
    {
      hide FromLE, Low, Shr, Shl, Pow2, HighBit, ReadLE, IsStreamOf;
      if |src| < 1 {
        container, bitsConsumed, ptr := 0, 0, 0;
        return false;
      }
      var lastByte := src[|src| - 1];
      if lastByte != 0 { LastByteBits(lastByte); }
      if |src| >= REGISTER_BYTES {
        ptr := |src| - REGISTER_BYTES;
        container := ReadLE(src, ptr, REGISTER_BYTES);
        bitsConsumed := if lastByte != 0 then 8 - HighBit(lastByte) else 0;
        if lastByte == 0 { return false; }
        ReadIsRegister(src, ptr);
      } else {
        ptr := 0;
        container := ReadLE(src, 0, |src|);
        bitsConsumed := if lastByte != 0 then 8 - HighBit(lastByte) else 0;
        if lastByte == 0 { return false; }
        bitsConsumed := bitsConsumed + (REGISTER_BYTES - |src|) * 8;
        ShortIsRegister(src);
      }
      StreamStart(src);
      return true;
    }

    /** The register bits below the consumed ones, as getMiddleBits cuts them out. */
    function LookBits(nbBits: nat): (v: nat)
      requires nbBits < 32
      reads this
      ensures v < Pow2(nbBits)
    {
      var start := (REGISTER_BITS - bitsConsumed - nbBits) % REGISTER_BITS;
      LowShr(Shr(container, start), nbBits);
      Low(Shr(container, start), nbBits)
    }

    /** The double-shift form; only right for at least one bit. */
    function LookBitsFast(nbBits: nat): (v: nat)
      requires 1 <= nbBits < 32
      reads this
      ensures v < Pow2(nbBits)
    {
      var up := Shl(container, bitsConsumed % REGISTER_BITS);
      UpperBound(up, nbBits);
      Shr(Low(up, REGISTER_BITS), (REGISTER_BITS - nbBits) % REGISTER_BITS)
    }

    /** What reading `nbBits` bits means: the consumed count always grows, and as long as the
        register was not overrun the value is the popped field. */
    twostate predicate ReadEffect(nbBits: nat, value: nat)
      reads this
    {
      && Valid() && ptr == old(ptr) && bitsConsumed == old(bitsConsumed) + nbBits && value < Pow2(nbBits)
      && (!Overrun() ==>
            && nbBits <= old(Remaining()).len
            && value == old(Remaining()).Top(nbBits)
            && Remaining() == old(Remaining()).Pop(nbBits))
    }

    lemma {:induction false} LookIsTop(nbBits: nat)
      requires Valid() && nbBits < 32 && bitsConsumed + nbBits <= REGISTER_BITS
      ensures LookBits(nbBits) == Remaining().Top(nbBits)
      ensures nbBits >= 1 ==> LookBitsFast(nbBits) == Remaining().Top(nbBits)
    {
      hide Low, Shr, Shl, Pow2;
      RegisterTop(FromLE(src), ptr, bitsConsumed, nbBits);
      if nbBits == 0 {
        LowZero(Shr(container, (REGISTER_BITS - bitsConsumed) % REGISTER_BITS));
        LowZero(Shr(container, REGISTER_BITS - bitsConsumed));
      } else {
        assert (REGISTER_BITS - bitsConsumed - nbBits) % REGISTER_BITS == REGISTER_BITS - bitsConsumed - nbBits;
        assert bitsConsumed % REGISTER_BITS == bitsConsumed;
        assert (REGISTER_BITS - nbBits) % REGISTER_BITS == REGISTER_BITS - nbBits;
        FastLookAgrees(container, bitsConsumed, nbBits);
      }
    }

    method ReadBits(nbBits: nat) returns (value: nat)
      requires Valid() && nbBits < 32
      modifies this`bitsConsumed
      ensures ReadEffect(nbBits, value)
    {
      hide FromLE, Low, Shr, Shl, Pow2;
      value := LookBits(nbBits);
      if bitsConsumed + nbBits <= REGISTER_BITS {
        LookIsTop(nbBits);
        PopLow(FromLE(src), Remaining().len, nbBits);
      }
      bitsConsumed := bitsConsumed + nbBits;
    }

    method ReadBitsFast(nbBits: nat) returns (value: nat)
      requires Valid() && 1 <= nbBits < 32
      modifies this`bitsConsumed
      ensures ReadEffect(nbBits, value)
    {
      hide FromLE, Low, Shr, Shl, Pow2;
      value := LookBitsFast(nbBits);
      if bitsConsumed + nbBits <= REGISTER_BITS {
        LookIsTop(nbBits);
        PopLow(FromLE(src), Remaining().len, nbBits);
      }
      bitsConsumed := bitsConsumed + nbBits;
    }

    /** A wider look begins with what a narrower one shows, even where it reaches beyond the register. */
    lemma {:induction false} LookWider(nbBits: nat, width: nat)
      requires Valid() && 1 <= nbBits <= width < 32 && bitsConsumed + nbBits <= REGISTER_BITS
      ensures Shr(LookBitsFast(width), width - nbBits) == Remaining().Top(nbBits)
    {
      hide Low, Shr, Shl, Pow2;
      LookIsTop(nbBits);
      var up := Low(Shl(container, bitsConsumed % REGISTER_BITS), REGISTER_BITS);
      assert (REGISTER_BITS - nbBits) % REGISTER_BITS == REGISTER_BITS - nbBits;
      assert (REGISTER_BITS - width) % REGISTER_BITS == REGISTER_BITS - width;
      ShrShr(up, REGISTER_BITS - width, width - nbBits);
    }

    method SkipBits(nbBits: nat)
      requires Valid()
      modifies this`bitsConsumed
      ensures Valid() && bitsConsumed == old(bitsConsumed) + nbBits
      ensures bitsConsumed <= REGISTER_BITS ==> Remaining() == old(Remaining()).Pop(nbBits)
    {
      if bitsConsumed + nbBits <= REGISTER_BITS {
        PopLow(FromLE(src), Remaining().len, nbBits);
      }
      bitsConsumed := bitsConsumed + nbBits;
    }

    /** reloadDStreamFast, for `ptr` at least one register above the start. */
    method ReloadFast() returns (status: Status)
      requires Valid() && !Overrun()
      modifies this
      ensures Valid() && !Overrun() && Remaining() == old(Remaining())
      ensures old(ptr) < REGISTER_BYTES ==> status == Overflow && ptr == old(ptr) && bitsConsumed == old(bitsConsumed)
      ensures old(ptr) >= REGISTER_BYTES ==> status == Unfinished && bitsConsumed < 8
    {
      if ptr < REGISTER_BYTES { return Overflow; }
      ptr := ptr - bitsConsumed / 8;
      bitsConsumed := bitsConsumed % 8;
      container := ReadLE(src, ptr, REGISTER_BYTES);
      ReadIsRegister(src, ptr);
      return Unfinished;
    }

    /** Refills the register without touching what remains to be read. Afterwards a field of up to
        57 bits is available, or else everything that remains is. */
    method Reload() returns (status: Status)
      requires Valid()
      modifies this
      ensures Valid()
      ensures status == Overflow <==> old(Overrun())
      ensures status == Overflow ==> Overrun() && ptr == old(ptr) && bitsConsumed == old(bitsConsumed)
      ensures status != Overflow ==> !Overrun() && Remaining() == old(Remaining()) && (bitsConsumed < 8 || ptr == 0)
      ensures status == Unfinished ==> bitsConsumed < 8
      ensures status == Completed <==> old(EndOfDStream())
      ensures status == Completed ==> EndOfDStream()
      ensures status == EndOfBuffer <==> !old(Overrun()) && !old(EndOfDStream()) && (old(ptr) == 0 || old(ptr) < old(bitsConsumed) / 8)
      ensures status == EndOfBuffer ==> ptr == 0
    {
      if bitsConsumed > REGISTER_BITS { return Overflow; }
      if ptr >= REGISTER_BYTES {
        status := ReloadFast();
        return;
      }
      if ptr == 0 {
        if bitsConsumed < REGISTER_BITS { return EndOfBuffer; }
        return Completed;
      }
      var nbBytes := bitsConsumed / 8;
      status := Unfinished;
      if ptr < nbBytes {
        nbBytes := ptr;
        status := EndOfBuffer;
      }
      ptr := ptr - nbBytes;
      bitsConsumed := bitsConsumed - nbBytes * 8;
      container := ReadLE(src, ptr, REGISTER_BYTES);
      ReadIsRegister(src, ptr);
    }

    /** Holds exactly when nothing remains to be read. */
    predicate EndOfDStream()
      reads this
      ensures EndOfDStream() <==> !Overrun() && Remaining().len == 0
    {
      ptr == 0 && bitsConsumed == REGISTER_BITS
    }
  }

  /** Little-endian load of `n` bytes. */
  function ReadLE(src: seq<Byte>, at: nat, n: nat): nat
    requires at + n <= |src|
  {
    FromLE(src[at..at + n])
  }

  lemma {:induction false} ReadIsRegister(src: seq<Byte>, ptr: nat)
    requires ptr + REGISTER_BYTES <= |src|
    ensures ReadLE(src, ptr, REGISTER_BYTES) == Low(Shr(FromLE(src), 8 * ptr), REGISTER_BITS)
  {
    FromLEPrefix(src, ptr);
    FromLEPrefix(src[ptr..], REGISTER_BYTES);
    assert src[ptr..][..REGISTER_BYTES] == src[ptr..ptr + REGISTER_BYTES];
  }

  lemma {:induction false} ShortIsRegister(src: seq<Byte>)
    requires |src| < REGISTER_BYTES
    ensures ReadLE(src, 0, |src|) == Low(Shr(FromLE(src), 8 * 0), REGISTER_BITS)
  {
    assert src[0..0 + |src|] == src;
    FromLEBound(src);
    Pow2Mono(8 * |src|, 64);
    LowSmall(FromLE(src), 64);
  }

  lemma {:induction false} LastByteBits(lastByte: Byte)
    requires lastByte != 0
    ensures HighBit(lastByte) <= 7
  {
    ByteBound();
    if HighBit(lastByte) >= 8 {
      Pow2Mono(8, HighBit(lastByte));
    }
  }

  /** The end mark is the highest bit of the stream. */
  lemma {:induction false} StreamHighBit(s: seq<Byte>, b: Bits)
    requires IsStreamOf(s, b)
    ensures FromLE(s) > 0 && HighBit(FromLE(s)) == b.len
    ensures Low(FromLE(s), b.len) == b.val
  {
    HighBitUnique(FromLE(s), b.len);
    ShlOne(b.len);
    SplitUnique(b.val, 1, b.len);
  }

  lemma {:induction false} UpperBound(up: nat, nb: nat)
    requires 1 <= nb <= REGISTER_BITS
    ensures Shr(Low(up, REGISTER_BITS), (REGISTER_BITS - nb) % REGISTER_BITS) < Pow2(nb)
  {
    hide Low, Shr, Pow2;
    LowShr(up, REGISTER_BITS);
    assert (REGISTER_BITS - nb) % REGISTER_BITS == REGISTER_BITS - nb;
    ShrBound(Low(up, REGISTER_BITS), REGISTER_BITS - nb, nb);
  }

  lemma {:induction false} StreamStart(src: seq<Byte>)
    requires src != [] && src[|src| - 1] != 0
    ensures
      var len := 8 * (|src| - 1) + HighBit(src[|src| - 1]);
      forall b: Bits {:trigger IsStreamOf(src, b)} :: IsStreamOf(src, b) ==> Bits(Low(FromLE(src), len), len) == b
  {
    hide FromLE, Low, Pow2;
    FromLEHighBit(src);
    forall b: Bits {:trigger IsStreamOf(src, b)} | IsStreamOf(src, b)
      ensures b.len == 8 * (|src| - 1) + HighBit(src[|src| - 1]) && Low(FromLE(src), b.len) == b.val
    {
      StreamHighBit(src, b);
    }
  }

  lemma {:induction false} LowZero(v: nat)
    ensures Low(v, 0) == 0
  {}

  lemma {:induction false} PopLow(m: nat, len: nat, nb: nat)
    requires nb <= len
    ensures Bits(Low(m, len), len).Pop(nb) == Bits(Low(m, len - nb), len - nb)
  {
    LowLow(m, len - nb, len);
  }

  /** The byte that holds the end mark is not zero. */
  lemma {:induction false} StreamLastByte(s: seq<Byte>, b: Bits)
    requires IsStreamOf(s, b)
    ensures s != [] && s[|s| - 1] != 0
  {
    hide FromLE, Pow2, Shl;
    var k := |s| - 1;
    assert s == s[..k] + [s[k]];
    FromLEConcat(s[..k], [s[k]]);
    FromLEOne(s[k]);
    FromLEBound(s[..k]);
    if s[k] == 0 {
      ShlOne(8 * k);
      Pow2Mono(8 * k, b.len);
    }
  }

  /** Cutting a field out of the register is popping it from the stack. */
  lemma {:induction false} RegisterTop(m: nat, ptr: nat, consumed: nat, nb: nat)
    requires consumed + nb <= REGISTER_BITS
    ensures
      var len := 8 * ptr + REGISTER_BITS - consumed;
      var b := Bits(Low(m, len), len);
      Low(Shr(Low(Shr(m, 8 * ptr), REGISTER_BITS), REGISTER_BITS - consumed - nb), nb) == b.Top(nb)
  {
    var len := 8 * ptr + REGISTER_BITS - consumed;
    var lo: nat := REGISTER_BITS - consumed - nb;
    var r := Shr(m, 8 * ptr);
    ShrLow(r, lo, REGISTER_BITS - lo);
    LowLow(Shr(r, lo), nb, REGISTER_BITS - lo);
    ShrShr(m, 8 * ptr, lo);
    ShrLow(m, len - nb, nb);
  }

  lemma {:induction false} LowShl(v: nat, a: nat, b: nat)
    ensures Low(Shl(v, a), a + b) == Shl(Low(v, b), a)
  {
    LowShr(v, b);
    ShlAdd(Low(v, b), Shl(Shr(v, b), b), a);
    ShlShl(Shr(v, b), b, a);
    ShlBound(Low(v, b), b, a);
    SplitUnique(Shl(Low(v, b), a), Shr(v, b), a + b);
  }

  lemma {:induction false} ShrShl(v: nat, a: nat, b: nat)
    ensures Shr(Shl(v, a), a + b) == Shr(v, b)
  {
    AddAbove(0, v, a);
    ShrShr(Shl(v, a), a, b);
    LowSmall(0, a);
  }

  /** Shifting up and down again equals shifting down and masking. */
  lemma {:induction false} FastLookAgrees(container: nat, consumed: nat, nb: nat)
    requires nb >= 1 && consumed + nb <= REGISTER_BITS
    ensures Shr(Low(Shl(container, consumed), REGISTER_BITS), REGISTER_BITS - nb)
         == Low(Shr(container, REGISTER_BITS - consumed - nb), nb)
  {
    var rest: nat := REGISTER_BITS - consumed;
    LowShl(container, consumed, rest);
    ShrShl(Low(container, rest), consumed, rest - nb);
    ShrLow(container, rest - nb, nb);
  }
}
