/** Moving a chain database from the old key layout to the sequential one while it is being read. */
module KeyMigration {

  import opened ChainTypes
  import opened KeyLayout

  type Db = map<Bytes, Bytes>

  /** Decodes a stored header to its block number; `None` for bytes that are no header. */
  type Decoder = Bytes -> Option<nat>

  function Get(db: Db, k: Key): Bytes {
    if Encode(k) in db then db[Encode(k)] else []
  }

  /** Readers try the new key first and the old one when that has nothing. */
  function Fallback(db: Db, k: Key, earlier: Key): Bytes {
    if Get(db, k) == [] then Get(db, earlier) else Get(db, k)
  }

  /** The last 32 bytes, padded with zeros on the left. */
  function ToHash(data: Bytes): Bytes {
    if 32 < |data| then data[|data| - 32..] else seq(32 - |data|, _ => 0) + data
  }

  function CanonicalHash(db: Db, n: nat): Bytes {
    ToHash(Fallback(db, Num(n), OldNum(n)))
  }

  /** The stored header, total difficulty, body or receipts of a block. */
  function Read(db: Db, part: Part, hash: Bytes, n: nat): Bytes {
    Fallback(db, At(part, n, hash), OldAt(part, hash))
  }

  datatype BlockNumber = Missing | Known(n: nat) | Undecodable

  function NumberAt(db: Db, decode: Decoder, hash: Bytes): BlockNumber {
    var data := Get(db, NumberOf(hash));
    if |data| == 8 then Known(Number(data))
    else
      var header := Get(db, OldAt(Head, hash));
      if header == [] then Missing else if decode(header).None? then Undecodable else Known(decode(header).value)
  }

  /** The block has a stored header and `n` is its own number. */
  ghost predicate Stored(db: Db, decode: Decoder, hash: Bytes, n: nat) {
    |hash| == 32 && n < LIMIT && NumberAt(db, decode, hash) == Known(n) && Read(db, Head, hash, n) != []
  }

  ghost predicate SameHashes(a: Db, b: Db) {
    forall n: nat | n < LIMIT :: CanonicalHash(b, n) == CanonicalHash(a, n)
  }

  ghost predicate SameBlock(a: Db, b: Db, decode: Decoder, hash: Bytes, n: nat) {
    NumberAt(b, decode, hash) == NumberAt(a, decode, hash) && forall p :: Read(b, p, hash, n) == Read(a, p, hash, n)
  }

  /** Every reader answers on `b` as it does on `a`. */
  ghost predicate Same(a: Db, b: Db, decode: Decoder) {
    SameHashes(a, b) && forall hash, n | Stored(a, decode, hash, n) :: SameBlock(a, b, decode, hash, n)
  }

  lemma SameRefl(a: Db, decode: Decoder)
    ensures Same(a, a, decode)
  {
  }

  lemma SameTrans(a: Db, b: Db, c: Db, decode: Decoder)
    requires Same(a, b, decode) && Same(b, c, decode)
    ensures Same(a, c, decode)
  {
    hide Encode, ToHash, Number;
    forall hash, n | Stored(a, decode, hash, n) ensures SameBlock(a, c, decode, hash, n) {
      assert SameBlock(a, b, decode, hash, n);
      assert Stored(b, decode, hash, n);
    }
  }

  /** Block numbers in use are below the limit, and short `block-num-` keys hold plain numbers. */
  ghost predicate Bounded(db: Db, decode: Decoder) {
    && (forall raw <- db :: OLD_NUMBER <= raw && |raw| < 20 ==> PlainNumber(raw))
    && forall hash | |hash| == 32 :: BoundedAt(db, decode, hash)
  }

  ghost predicate PlainNumber(raw: Bytes)
    requires 10 <= |raw|
  {
    Number(raw[10..]) < LIMIT && raw == Encode(OldNum(Number(raw[10..])))
  }

  ghost predicate BoundedAt(db: Db, decode: Decoder, hash: Bytes) {
    && (|Get(db, NumberOf(hash))| == 8 ==> Number(Get(db, NumberOf(hash))) < LIMIT)
    && (Get(db, OldAt(Head, hash)) != [] && decode(Get(db, OldAt(Head, hash))).Some?
        ==> decode(Get(db, OldAt(Head, hash))).value < LIMIT)
  }

  /** An old canonical entry says what the reader says. */
  ghost predicate HashesAgree(db: Db) {
    forall n: nat | n < LIMIT && Encode(OldNum(n)) in db :: ToHash(Get(db, OldNum(n))) == CanonicalHash(db, n)
  }

  /** While the old header is there, an old entry does not differ from a new one; once it is gone, what is left of
      the old entries has been copied. */
  ghost predicate PartAgrees(db: Db, hash: Bytes, n: nat, p: Part) {
    || Get(db, OldAt(p, hash)) == []
    || (if Get(db, OldAt(Head, hash)) != [] then Get(db, At(p, n, hash)) in {[], Get(db, OldAt(p, hash))}
        else Get(db, At(p, n, hash)) != [])
  }

  ghost predicate BlockAgrees(db: Db, decode: Decoder, hash: Bytes, n: nat) {
    var header := Get(db, OldAt(Head, hash));
    && (header != [] && decode(header).Some? ==> decode(header).value == n)
    && (header == [] || decode(header).Some? ==> forall p :: PartAgrees(db, hash, n, p))
  }

  ghost predicate BlocksAgree(db: Db, decode: Decoder) {
    forall hash, n | Stored(db, decode, hash, n) :: BlockAgrees(db, decode, hash, n)
  }

  ghost predicate Agrees(db: Db, decode: Decoder) {
    HashesAgree(db) && BlocksAgree(db, decode)
  }

  ghost predicate Ready(db: Db, decode: Decoder) {
    Bounded(db, decode) && Agrees(db, decode)
  }

  /** The database as earlier versions left it: no entry is in the new layout. */
  ghost predicate OldLayout(db: Db) {
    forall k: Key | k.Valid() && (k.Num? || k.NumberOf? || k.At?) :: Get(db, k) == []
  }

  /** Such a database agrees, so its migration changes no answer. */
  lemma OldLayoutReady(db: Db, decode: Decoder)
    requires Bounded(db, decode) && OldLayout(db)
    ensures Ready(db, decode)
  {
    hide Encode, ToHash, Number, Get;
    forall n: nat | n < LIMIT && Encode(OldNum(n)) in db ensures ToHash(Get(db, OldNum(n))) == CanonicalHash(db, n) {
      assert Num(n).Valid();
    }
    forall hash, n | Stored(db, decode, hash, n) ensures BlockAgrees(db, decode, hash, n) {
      assert NumberOf(hash).Valid();
      forall p ensures PartAgrees(db, hash, n, p) {
        assert At(p, n, hash).Valid();
      }
    }
  }

  ghost predicate Touches(k: Key, hash: Bytes) {
    (k.NumberOf? || k.At? || k.OldAt?) && k.hash == hash
  }

  lemma PutGets(db: Db, k: Key, v: Bytes)
    requires k.Valid()
    ensures forall j: Key | j.Valid() :: Get(db[Encode(k) := v], j) == if j == k then v else Get(db, j)
  {
    forall j: Key | j.Valid() ensures Get(db[Encode(k) := v], j) == if j == k then v else Get(db, j) {
      if Encode(j) == Encode(k) {
        EncodeInjective(j, k);
      }
    }
  }

  /** Only entries of one block changed. */
  ghost predicate Frame(a: Db, b: Db, hash: Bytes) {
    && (forall j: Key | j.Valid() && !Touches(j, hash) :: Get(b, j) == Get(a, j))
    && (forall n: nat | n < LIMIT :: Encode(OldNum(n)) in b ==> Encode(OldNum(n)) in a)
    && (forall raw <- b :: OLD_NUMBER <= raw && |raw| < 20 ==> raw in a)
  }

  /** A change to one block's entries is harmless if that block's own reads and agreement survive it. */
  lemma BlockStep(a: Db, b: Db, decode: Decoder, hash: Bytes)
    requires Ready(a, decode) && Frame(a, b, hash) && |hash| == 32
    requires BoundedAt(b, decode, hash)
    requires forall n | Stored(a, decode, hash, n) :: SameBlock(a, b, decode, hash, n)
    requires forall n | Stored(b, decode, hash, n) :: BlockAgrees(b, decode, hash, n)
    ensures Ready(b, decode) && Same(a, b, decode)
  {
    hide Encode, ToHash, Number, NumberAt, Read, BoundedAt, BlockAgrees, SameBlock, Get, CanonicalHash, PlainNumber;
    NumbersElsewhere(a, b, hash);
    forall h, n: nat | |h| == 32 && h != hash && n < LIMIT
      ensures SameBlock(a, b, decode, h, n) && Stored(b, decode, h, n) == Stored(a, decode, h, n)
      ensures BlockAgrees(b, decode, h, n) == BlockAgrees(a, decode, h, n)
      ensures BoundedAt(b, decode, h) == BoundedAt(a, decode, h)
    {
      BlockElsewhere(a, b, decode, h, n);
    }
    forall h | |h| == 32 ensures BoundedAt(b, decode, h) {
      if h != hash {
        BlockElsewhere(a, b, decode, h, 0);
      }
    }
  }

  lemma NumbersElsewhere(a: Db, b: Db, hash: Bytes)
    requires Frame(a, b, hash)
    ensures SameHashes(a, b) && (HashesAgree(a) ==> HashesAgree(b))
  {
    hide Encode, ToHash, Get;
    forall n: nat | n < LIMIT ensures Get(b, OldNum(n)) == Get(a, OldNum(n)) && Get(b, Num(n)) == Get(a, Num(n)) {
      assert OldNum(n).Valid() && Num(n).Valid();
    }
  }

  /** What is said of a block depends on its own entries only. */
  lemma BlockElsewhere(a: Db, b: Db, decode: Decoder, h: Bytes, n: nat)
    requires |h| == 32 && n < LIMIT && forall j: Key | j.Valid() && Touches(j, h) :: Get(b, j) == Get(a, j)
    ensures SameBlock(a, b, decode, h, n) && Stored(b, decode, h, n) == Stored(a, decode, h, n)
    ensures BlockAgrees(b, decode, h, n) == BlockAgrees(a, decode, h, n)
    ensures BoundedAt(b, decode, h) == BoundedAt(a, decode, h)
  {
    hide Encode, ToHash, Number;
    assert Get(b, NumberOf(h)) == Get(a, NumberOf(h)) && Get(b, OldAt(Head, h)) == Get(a, OldAt(Head, h));
    forall p ensures Read(b, p, h, n) == Read(a, p, h, n) && PartAgrees(b, h, n, p) == PartAgrees(a, h, n, p) {
      assert At(p, n, h).Valid() && OldAt(p, h).Valid();
    }
    hide Get, PartAgrees, Read;
  }

  /** A change to canonical entries is harmless if the reader's answers and the agreement survive it. */
  lemma NumberStep(a: Db, b: Db, decode: Decoder)
    requires Ready(a, decode) && SameHashes(a, b) && HashesAgree(b)
    requires forall j: Key | j.Valid() && !j.Num? && !j.OldNum? :: Get(b, j) == Get(a, j)
    requires forall raw <- b :: OLD_NUMBER <= raw && |raw| < 20 ==> raw in a
    ensures Ready(b, decode) && Same(a, b, decode)
  {
    hide Encode, ToHash, Number, NumberAt, Read, BoundedAt, BlockAgrees, SameBlock, Get, CanonicalHash, PlainNumber;
    forall h, n: nat | |h| == 32 && n < LIMIT
      ensures SameBlock(a, b, decode, h, n) && Stored(b, decode, h, n) == Stored(a, decode, h, n)
      ensures BlockAgrees(b, decode, h, n) == BlockAgrees(a, decode, h, n)
    {
      BlockElsewhere(a, b, decode, h, n);
    }
    forall h | |h| == 32 ensures BoundedAt(b, decode, h) {
      BlockElsewhere(a, b, decode, h, 0);
    }
  }

  lemma PutNumber(db: Db, decode: Decoder, n: nat) returns (b: Db)
    requires Ready(db, decode) && n < LIMIT && Encode(OldNum(n)) in db
    ensures b == db[Encode(Num(n)) := Get(db, OldNum(n))] && Ready(b, decode) && Same(db, b, decode)
  {
    hide ToHash, Number, BigEndian, Minimal, BlocksAgree, Bounded;
    b := db[Encode(Num(n)) := Get(db, OldNum(n))];
    PutGets(db, Num(n), Get(db, OldNum(n)));
    Scanned(Num(n), seq(32, _ => 0));
    hide Encode, Get;
    forall k: nat | k < LIMIT ensures Get(b, Num(k)) == if k == n then Get(db, OldNum(n)) else Get(db, Num(k)) {
      assert Num(k).Valid();
    }
    forall k: nat | k < LIMIT ensures Get(b, OldNum(k)) == Get(db, OldNum(k)) {
      assert OldNum(k).Valid();
    }
    NumberStep(db, b, decode);
  }

  lemma DeleteNumber(db: Db, decode: Decoder, n: nat) returns (b: Db)
    requires Ready(db, decode) && n < LIMIT && Get(db, Num(n)) == Get(db, OldNum(n))
    ensures b == db - {Encode(OldNum(n))} && Ready(b, decode) && Same(db, b, decode)
  {
    hide ToHash, Number, BigEndian, Minimal, BlocksAgree, Bounded;
    b := db - {Encode(OldNum(n))};
    DeleteGets(db, OldNum(n));
    hide Encode, Get;
    forall k: nat | k < LIMIT ensures Get(b, OldNum(k)) == if k == n then [] else Get(db, OldNum(k)) {
      assert OldNum(k).Valid();
    }
    forall k: nat | k < LIMIT ensures Get(b, Num(k)) == Get(db, Num(k)) {
      assert Num(k).Valid();
    }
    NumberStep(db, b, decode);
  }

  lemma DeleteGets(db: Db, k: Key)
    requires k.Valid()
    ensures forall j: Key | j.Valid() :: Get(db - {Encode(k)}, j) == if j == k then [] else Get(db, j)
  {
    forall j: Key | j.Valid() ensures Get(db - {Encode(k)}, j) == if j == k then [] else Get(db, j) {
      if Encode(j) == Encode(k) {
        EncodeInjective(j, k);
      }
    }
  }

  /** The old header says the block's number is `n`. */
  ghost predicate Moving(db: Db, decode: Decoder, hash: Bytes, n: nat) {
    var header := Get(db, OldAt(Head, hash));
    |hash| == 32 && header != [] && decode(header) == Some(n)
  }

  /** Everything the old entries of a block say has been copied to the new ones. */
  ghost predicate Moved(db: Db, decode: Decoder, hash: Bytes, n: nat) {
    && Get(db, NumberOf(hash)) == BigEndian(n, 8)
    && forall p :: Get(db, OldAt(p, hash)) in {[], Get(db, At(p, n, hash))}
  }

  lemma BlockPutFrame(db: Db, k: Key, v: Bytes)
    requires k.Valid() && (k.NumberOf? || k.At?)
    ensures Frame(db, db[Encode(k) := v], k.hash)
  {
    PutGets(db, k, v);
    Scanned(k, k.hash);
    forall n: nat | n < LIMIT ensures Encode(OldNum(n)) != Encode(k) {
      if Encode(OldNum(n)) == Encode(k) {
        EncodeInjective(OldNum(n), k);
      }
    }
  }

  /** Some of the block's entries have been copied, nothing else happened to it. */
  ghost predicate Copied(a: Db, b: Db, hash: Bytes, n: nat) {
    && Get(b, NumberOf(hash)) in {Get(a, NumberOf(hash)), BigEndian(n, 8)}
    && (forall p :: Get(b, OldAt(p, hash)) == Get(a, OldAt(p, hash)))
    && (forall p :: Get(b, At(p, n, hash)) == Get(a, At(p, n, hash))
                    || (Get(a, OldAt(p, hash)) != [] && Get(b, At(p, n, hash)) == Get(a, OldAt(p, hash))))
  }

  /** An old header tells the number under which the block is stored. */
  lemma MovingStored(db: Db, decode: Decoder, hash: Bytes, n: nat)
    requires Ready(db, decode) && Moving(db, decode, hash, n)
    ensures n < LIMIT && Stored(db, decode, hash, n) && BlockAgrees(db, decode, hash, n)
  {
    hide Encode, Get, Number, HashesAgree;
    assert BoundedAt(db, decode, hash);
    var data := Get(db, NumberOf(hash));
    var k := if |data| == 8 then Number(data) else n;
    assert Stored(db, decode, hash, k);
  }

  lemma CopiedReads(a: Db, b: Db, decode: Decoder, hash: Bytes, n: nat)
    requires Moving(a, decode, hash, n) && Stored(a, decode, hash, n) && BlockAgrees(a, decode, hash, n)
    requires Copied(a, b, hash, n)
    ensures SameBlock(a, b, decode, hash, n) && BlockAgrees(b, decode, hash, n) && Moving(b, decode, hash, n)
    ensures BoundedAt(b, decode, hash)
  {
    EightBytes();
    BigEndianRoundTrip(n, 8);
    hide Encode, Get, Number, BigEndian;
    forall p ensures Read(b, p, hash, n) == Read(a, p, hash, n) && PartAgrees(b, hash, n, p) {
      assert PartAgrees(a, hash, n, p);
    }
  }

  lemma CopyStep(a: Db, b: Db, decode: Decoder, hash: Bytes, n: nat)
    requires Ready(a, decode) && Moving(a, decode, hash, n) && Frame(a, b, hash) && Copied(a, b, hash, n)
    ensures Ready(b, decode) && Same(a, b, decode) && Moving(b, decode, hash, n)
  {
    MovingStored(a, decode, hash, n);
    CopiedReads(a, b, decode, hash, n);
    hide Encode, Get, Number, BigEndian, Copied, Frame, BlockAgrees, BoundedAt, Read, Ready;
    BlockStep(a, b, decode, hash);
  }

  lemma PutBlockNumber(db: Db, decode: Decoder, hash: Bytes, n: nat) returns (b: Db)
    requires Ready(db, decode) && Moving(db, decode, hash, n)
    ensures b == db[Encode(NumberOf(hash)) := BigEndian(n, 8)] && Ready(b, decode) && Same(db, b, decode)
    ensures Moving(b, decode, hash, n)
  {
    hide BigEndian, Ready, Same;
    b := db[Encode(NumberOf(hash)) := BigEndian(n, 8)];
    MovingStored(db, decode, hash, n);
    PutGets(db, NumberOf(hash), BigEndian(n, 8));
    BlockPutFrame(db, NumberOf(hash), BigEndian(n, 8));
    hide Encode, Get, Number, Frame, Stored, BlockAgrees;
    CopyStep(db, b, decode, hash, n);
  }

  lemma PutPart(db: Db, decode: Decoder, p: Part, hash: Bytes, n: nat) returns (b: Db)
    requires Ready(db, decode) && Moving(db, decode, hash, n) && Get(db, OldAt(p, hash)) != []
    ensures b == db[Encode(At(p, n, hash)) := Get(db, OldAt(p, hash))] && Ready(b, decode) && Same(db, b, decode)
    ensures Moving(b, decode, hash, n)
  {
    hide BigEndian, Ready, Same;
    b := db[Encode(At(p, n, hash)) := Get(db, OldAt(p, hash))];
    MovingStored(db, decode, hash, n);
    PutGets(db, At(p, n, hash), Get(db, OldAt(p, hash)));
    BlockPutFrame(db, At(p, n, hash), Get(db, OldAt(p, hash)));
    hide Encode, Get, Number, Frame, Stored, BlockAgrees;
    CopyStep(db, b, decode, hash, n);
  }

  /** The old entries of a block can go: there is no old header, or all of them have been copied. */
  ghost predicate Expendable(db: Db, decode: Decoder, hash: Bytes) {
    var header := Get(db, OldAt(Head, hash));
    header != [] ==> decode(header).Some? && Moved(db, decode, hash, decode(header).value)
  }

  /** Some of the block's old entries have been deleted, nothing else happened to it. */
  ghost predicate Erased(a: Db, b: Db, hash: Bytes) {
    forall j: Key | j.Valid() && Touches(j, hash) :: Get(b, j) == Get(a, j) || (j.OldAt? && Get(b, j) == [])
  }

  lemma ErasedReads(a: Db, b: Db, decode: Decoder, hash: Bytes, n: nat)
    requires |hash| == 32 && n < LIMIT && BoundedAt(a, decode, hash) && Expendable(a, decode, hash) && Erased(a, b, hash)
    requires Stored(a, decode, hash, n) ==> BlockAgrees(a, decode, hash, n)
    ensures BoundedAt(b, decode, hash) && Expendable(b, decode, hash)
    ensures Stored(b, decode, hash, n) ==> Stored(a, decode, hash, n)
    ensures Stored(a, decode, hash, n) ==> SameBlock(a, b, decode, hash, n) && BlockAgrees(b, decode, hash, n)
  {
    var header := Get(a, OldAt(Head, hash));
    if header != [] {
      EightBytes();
      BigEndianRoundTrip(decode(header).value, 8);
    }
    assert NumberOf(hash).Valid() && OldAt(Head, hash).Valid();
    hide Encode, Get, Number, BigEndian;
    forall p
      ensures Get(b, OldAt(p, hash)) in {[], Get(a, OldAt(p, hash))} && Get(b, At(p, n, hash)) == Get(a, At(p, n, hash))
      ensures Stored(a, decode, hash, n) ==> Read(b, p, hash, n) == Read(a, p, hash, n) && PartAgrees(b, hash, n, p)
    {
      assert At(p, n, hash).Valid() && OldAt(p, hash).Valid();
      assert Stored(a, decode, hash, n) ==> PartAgrees(a, hash, n, p);
    }
  }

  lemma DeleteFrame(db: Db, hash: Bytes, raw: Bytes)
    requires |hash| == 32 && (OLD_BLOCK + hash <= raw || raw == Encode(OldAt(Receipts, hash)))
    ensures Frame(db, db - {raw}, hash) && Erased(db, db - {raw}, hash)
  {
    forall j: Key | j.Valid() && Encode(j) == raw ensures j.OldAt? && j.hash == hash {
      Scanned(j, hash);
      if raw == Encode(OldAt(Receipts, hash)) {
        EncodeInjective(j, OldAt(Receipts, hash));
      }
    }
  }

  lemma DeleteOld(db: Db, decode: Decoder, hash: Bytes, raw: Bytes) returns (b: Db)
    requires Ready(db, decode) && |hash| == 32 && Expendable(db, decode, hash)
    requires OLD_BLOCK + hash <= raw || raw == Encode(OldAt(Receipts, hash))
    ensures b == db - {raw} && Ready(b, decode) && Same(db, b, decode) && Expendable(b, decode, hash)
  {
    b := db - {raw};
    DeleteFrame(db, hash, raw);
    hide Encode, Get, Number, BigEndian, Frame, Erased, BlockAgrees, Expendable, BoundedAt, SameBlock, Same, HashesAgree;
    ErasedReads(db, b, decode, hash, 0);
    forall n: nat | n < LIMIT
      ensures Stored(b, decode, hash, n) ==> Stored(db, decode, hash, n)
      ensures Stored(db, decode, hash, n) ==> SameBlock(db, b, decode, hash, n) && BlockAgrees(b, decode, hash, n)
    {
      ErasedReads(db, b, decode, hash, n);
    }
    BlockStep(db, b, decode, hash);
  }
}
