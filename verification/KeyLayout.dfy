/** The byte keys of the chain database, in the sequential layout and in the one it replaced. */
module KeyLayout {

  import opened ChainTypes

  type Bytes = seq<Byte>

  /** Block numbers below this one keep the two layouts apart. */
  const LIMIT: nat := 0x4000_0000_0000_0000
  const OLD_NUMBER: Bytes := [0x62, 0x6c, 0x6f, 0x63, 0x6b, 0x2d, 0x6e, 0x75, 0x6d, 0x2d]  // block-num-
  const OLD_BLOCK: Bytes := [0x62, 0x6c, 0x6f, 0x63, 0x6b, 0x2d]                            // block-
  const OLD_RECEIPTS: Bytes :=                                                              // receipts-block-
    [0x72, 0x65, 0x63, 0x65, 0x69, 0x70, 0x74, 0x73, 0x2d, 0x62, 0x6c, 0x6f, 0x63, 0x6b, 0x2d]

  datatype Part = Head | Difficulty | Body | Receipts

  datatype Key =
    | Num(n: nat)
    | NumberOf(hash: Bytes)
    | At(part: Part, n: nat, hash: Bytes)
    | OldNum(n: nat)
    | OldAt(part: Part, hash: Bytes)
  {
    ghost predicate Valid() {
      (Num? || At? || OldNum? ==> n < LIMIT) && (NumberOf? || At? || OldAt? ==> |hash| == 32)
    }
  }

  ghost function Power(width: nat): nat {
    if width == 0 then 1 else 256 * Power(width - 1)
  }

  /** A number in `width` big-endian bytes; higher bytes are dropped. */
  function BigEndian(n: nat, width: nat): (bs: Bytes)
    ensures |bs| == width
  {
    if width == 0 then [] else BigEndian(n / 256, width - 1) + [n % 256]
  }

  /** A number in as few big-endian bytes as hold it. */
  function Minimal(n: nat): Bytes {
    if n == 0 then [] else Minimal(n / 256) + [n % 256]
  }

  function Number(bs: Bytes): nat {
    if bs == [] then 0 else 256 * Number(bs[..|bs| - 1]) + bs[|bs| - 1]
  }

  lemma {:induction false} BigEndianRoundTrip(n: nat, width: nat)
    requires n < Power(width)
    ensures Number(BigEndian(n, width)) == n
  {
    if 0 < width {
      BigEndianRoundTrip(n / 256, width - 1);
      assert BigEndian(n, width)[..width - 1] == BigEndian(n / 256, width - 1);
    }
  }

  lemma {:induction false} MinimalRoundTrip(n: nat)
    ensures Number(Minimal(n)) == n
  {
    if 0 < n {
      MinimalRoundTrip(n / 256);
      assert Minimal(n)[..|Minimal(n)| - 1] == Minimal(n / 256);
    }
  }

  lemma {:induction false} MinimalShort(n: nat, width: nat)
    requires n < Power(width)
    ensures |Minimal(n)| <= width
  {
    if 0 < n {
      MinimalShort(n / 256, width - 1);
    }
  }

  lemma {:induction false} LeadingByte(n: nat, width: nat)
    requires 0 < width && n < 64 * Power(width - 1)
    ensures BigEndian(n, width)[0] < 64
  {
    if 1 < width {
      LeadingByte(n / 256, width - 1);
    }
  }

  lemma EightBytes()
    ensures Power(8) == 4 * LIMIT && 64 * Power(7) == LIMIT
  {
    assert Power(2) == 0x1_0000;
    assert Power(4) == 0x1_0000_0000;
    assert Power(6) == 0x1_0000_0000_0000;
  }

  function Prefix(part: Part): Byte {
    match part
    case Head => 0x68
    case Difficulty => 0x68
    case Body => 0x62
    case Receipts => 0x72
  }

  function OldSuffix(part: Part): Bytes {
    match part
    case Head => [0x2d, 0x68, 0x65, 0x61, 0x64, 0x65, 0x72]  // -header
    case Difficulty => [0x2d, 0x74, 0x64]                    // -td
    case Body => [0x2d, 0x62, 0x6f, 0x64, 0x79]              // -body
    case Receipts => []
  }

  function Encode(k: Key): Bytes {
    match k
    case Num(n) => [0x68] + BigEndian(n, 8) + [0x6e]
    case NumberOf(h) => [0x48] + h
    case At(p, n, h) => [Prefix(p)] + BigEndian(n, 8) + h + if p == Difficulty then [0x74] else []
    case OldNum(n) => OLD_NUMBER + Minimal(n)
    case OldAt(p, h) => (if p == Receipts then OLD_RECEIPTS else OLD_BLOCK) + h + OldSuffix(p)
  }

  /** Length and leading bytes tell the kind of key. */
  lemma Shape(k: Key)
    requires k.Valid()
    ensures var bs := Encode(k);
            match k
            case Num(_) => |bs| == 10 && bs[0] == 0x68
            case NumberOf(_) => |bs| == 33 && bs[0] == 0x48
            case At(p, _, _) => |bs| == (if p == Difficulty then 42 else 41) && bs[0] == Prefix(p) && bs[1] < 64
            case OldNum(_) => 10 <= |bs| <= 18 && bs[..10] == OLD_NUMBER
            case OldAt(p, _) => |bs| == (if p == Head then 45 else if p == Difficulty then 41 else if p == Body then 43 else 47)
                                && bs[0] == (if p == Receipts then 0x72 else 0x62) && 64 <= bs[1]
  {
    EightBytes();
    match k
    case At(_, n, _) => LeadingByte(n, 8);
    case OldNum(n) => MinimalShort(n, 8);
    case _ =>
  }

  lemma SameShape(j: Key, k: Key)
    requires j.Valid() && k.Valid() && Encode(j) == Encode(k)
    ensures j.Num? == k.Num? && j.NumberOf? == k.NumberOf? && j.At? == k.At? && j.OldNum? == k.OldNum?
    ensures j.At? || j.OldAt? ==> j.part == k.part
  {
    hide Encode, BigEndian, Minimal;
    Shape(j);
    Shape(k);
  }

  /** The two layouts together never use one byte key for two things. */
  lemma EncodeInjective(j: Key, k: Key)
    requires j.Valid() && k.Valid() && Encode(j) == Encode(k)
    ensures j == k
  {
    SameShape(j, k);
    EightBytes();
    var bs := Encode(j);
    match j
    case Num(n) =>
      assert bs[1..9] == BigEndian(n, 8) && bs[1..9] == BigEndian(k.n, 8);
      BigEndianRoundTrip(n, 8);
      BigEndianRoundTrip(k.n, 8);
    case NumberOf(h) => assert bs[1..] == h && bs[1..] == k.hash;
    case At(_, n, h) =>
      assert bs[1..9] == BigEndian(n, 8) && bs[1..9] == BigEndian(k.n, 8);
      BigEndianRoundTrip(n, 8);
      BigEndianRoundTrip(k.n, 8);
      assert bs[9..41] == h && bs[9..41] == k.hash;
    case OldNum(n) =>
      assert bs[10..] == Minimal(n) && bs[10..] == Minimal(k.n);
      MinimalRoundTrip(n);
      MinimalRoundTrip(k.n);
    case OldAt(p, h) =>
      var m := if p == Receipts then 15 else 6;
      assert bs[m..m + 32] == h && bs[m..m + 32] == k.hash;
  }

  /** Which keys the three scans of the migration come across. */
  lemma Scanned(k: Key, hash: Bytes)
    requires k.Valid() && |hash| == 32
    ensures OLD_NUMBER <= Encode(k) && |Encode(k)| < 20 ==> k.OldNum?
    ensures OLD_BLOCK + hash <= Encode(k) ==> k.OldAt? && k.part != Receipts && k.hash == hash
    ensures OLD_RECEIPTS <= Encode(k) ==> k.OldAt? && k.part == Receipts
    ensures k.OldNum? ==> OLD_NUMBER <= Encode(k) && |Encode(k)| < 20
    ensures k.OldAt? && k.part != Receipts ==> OLD_BLOCK + k.hash <= Encode(k) && 38 <= |Encode(k)|
    ensures k.OldAt? && k.part == Receipts ==> OLD_RECEIPTS <= Encode(k)
  {
    Shape(k);
    var bs := Encode(k);
    assert OLD_RECEIPTS <= bs ==> bs[0] == 0x72 && bs[1] == 0x65;
    assert OLD_BLOCK + hash <= bs ==> bs[0] == 0x62 && bs[1] == 0x6c;
    if k.OldAt? && k.part != Receipts {
      assert bs[6..38] == k.hash;
      assert OLD_BLOCK + hash <= bs ==> bs[6..38] == hash;
    }
  }

  lemma {:induction false} NumberRoundTrip(bs: Bytes)
    ensures BigEndian(Number(bs), |bs|) == bs
  {
    if bs != [] {
      NumberRoundTrip(bs[..|bs| - 1]);
    }
  }

  /** Without a bound on block numbers the layouts overlap: every old difficulty key is also the key of the body
      of some block. */
  lemma OldKeyReused(block: Bytes) returns (n: nat, hash: Bytes)
    requires |block| == 32
    ensures LIMIT <= n && |hash| == 32 && Encode(At(Body, n, hash)) == Encode(OldAt(Difficulty, block))
  {
    var bs := Encode(OldAt(Difficulty, block));
    n, hash := Number(bs[1..9]), bs[9..];
    NumberRoundTrip(bs[1..9]);
    assert bs == [0x62] + bs[1..9] + hash;
    if n < LIMIT {
      Shape(At(Body, n, hash));
    }
  }
}
