/** The bucket of a longer symbol: which bits of its first three bytes it depends on. */
module FsstBuckets {
  import opened Powers
  import opened Bytes
  import opened FsstTable

  /** The first three bytes times a prime, which stays below 2^56. */
  function Product(s: Word): nat { (At(s, 0) + 256 * At(s, 1) + 65536 * At(s, 2)) * 2971215073 }

  function Bit(x: nat, k: nat): nat { x / Pow2(k) % 2 }

  /** Bit `k` of the bucket is the exclusive or of two bits of the product, 15 places apart. */
  lemma {:induction false} BucketBits(s: Word, k: nat)
    requires k < 10
    ensures Bit(Bucket(s), k) == (Bit(Product(s), k) + Bit(Product(s), k + 15)) % 2
  {
    hide Pow2, Low, Shr, XorLow;
    var x := Product(s);
    ProductFits(x);
    XorBit(x, Shr(x, 15), 10, k);
    ShiftMeaning(XorLow(x, Shr(x, 15), 10), k);
    ShiftMeaning(x, k);
    ShiftMeaning(x, 15 + k);
    ShrShr(x, 15, k);
    ParityOfSum(Shr(x, k), Shr(x, 15 + k));
  }

  lemma {:induction false} ProductFits(x: nat)
    requires x < 256 * 65536 * 2971215073
    ensures Low(x, 64) == x
  {
    hide Low, Pow2;
    Power62();
    Pow2Mono(62, 64);
    LowSmall(x, 64);
  }

  lemma {:induction false} ParityOfSum(a: nat, b: nat)
    ensures (a + b) % 2 == (a % 2 + b % 2) % 2
  {}

  lemma {:induction false} ParityOfLow(a: nat, b: nat)
    ensures (a % 2 + 2 * b) % 2 == a % 2 && (a % 2 + 2 * b) / 2 == b
  {}

  lemma {:induction false} XorBit(a: nat, b: nat, n: nat, k: nat)
    requires k < n
    ensures Shr(XorLow(a, b, n), k) % 2 == (Shr(a, k) + Shr(b, k)) % 2
  {
    ParityOfLow(a + b, XorLow(a / 2, b / 2, n - 1));
    XorLowNext(a, b, n);
    hide XorLow;
    if k > 0 { XorBit(a / 2, b / 2, n - 1, k - 1); }
  }

  lemma {:induction false} XorLowNext(a: nat, b: nat, n: nat)
    requires n > 0
    ensures XorLow(a, b, n) == (a + b) % 2 + 2 * XorLow(a / 2, b / 2, n - 1)
  {}

  // ---------------------------------------------------------------- two symbols with the same first byte

  const HTTP: Word := [104, 116, 116, 112, 58, 47, 47, 119]
  const HELLO: Word := [104, 101, 108, 108, 111]

  lemma {:induction false} SecondBit(s: Word, x: nat)
    requires Product(s) == x
    ensures Bit(Bucket(s), 1) == (x / 2 % 2 + x / 65536 % 2) % 2
  {
    hide Bucket, Product;
    BucketBits(s, 1);
    assert Pow2(8) == 256 && Pow2(16) == 65536;
  }

  lemma {:induction false} OtherBucket()
    ensures Bucket(HTTP) != Bucket(HELLO)
  {
    hide Bucket, Bit;
    SecondBit(HTTP, 22676242127974248);
    SecondBit(HELLO, 21107060253900904);
  }

  /** They have different buckets, so a table takes both. */
  method BothAreTaken() returns (table: SymbolTable, first: bool, second: bool)
    ensures fresh(table) && first && second && table.Valid() && table.syms == [HTTP, HELLO]
  {
    hide Bucket, Pair, Icl, SlotEntry, ShortEntry, ByteEntry, BytesOk, ShortsOk, SlotsOk, HistoOk, SymbolsOk;
    OtherBucket();
    table := new SymbolTable();
    first := table.Add(HTTP);
    second := table.Add(HELLO);
  }
}
