/** What each pass of the key migration makes of a database, and what readers notice of it. */
module KeyConversion {

  import opened ChainTypes
  import opened KeyLayout
  import opened KeyMigration

  ghost const ALL: set<Part> := {Head, Difficulty, Body, Receipts}

  /** The key that marks a converted database. */
  const FLAG: Bytes :=         // dbUpgrade_20160530sequentialKeys
    [0x64, 0x62, 0x55, 0x70, 0x67, 0x72, 0x61, 0x64, 0x65, 0x5f, 0x32, 0x30, 0x31, 0x36, 0x30, 0x35, 0x33, 0x30,
     0x73, 0x65, 0x71, 0x75, 0x65, 0x6e, 0x74, 0x69, 0x61, 0x6c, 0x4b, 0x65, 0x79, 0x73]
  const LAST_HEADER: Bytes := [0x4c, 0x61, 0x73, 0x74, 0x48, 0x65, 0x61, 0x64, 0x65, 0x72]  // LastHeader

  /** What a finished first pass has made of canonical entries; `keys` are those still to be visited. */
  ghost predicate NumbersConverted(a: Db, b: Db, keys: set<Bytes>) {
    && (forall j: Key | j.Valid() && !j.Num? && !j.OldNum? :: Get(b, j) == Get(a, j))
    && (forall n: nat | n < LIMIT :: NumberConverted(a, b, keys, n))
  }

  ghost predicate NumberConverted(a: Db, b: Db, keys: set<Bytes>, n: nat) {
    if Encode(OldNum(n)) in a && Encode(OldNum(n)) !in keys then
      Get(b, Num(n)) == Get(a, OldNum(n)) && Encode(OldNum(n)) !in b
    else
      Get(b, Num(n)) == Get(a, Num(n)) && (Encode(OldNum(n)) in b <==> Encode(OldNum(n)) in a)
      && Get(b, OldNum(n)) == Get(a, OldNum(n))
  }

  lemma ConvertNumber(a: Db, b: Db, keys: set<Bytes>, n: nat) returns (c: Db)
    requires NumbersConverted(a, b, keys) && n < LIMIT && Encode(OldNum(n)) in keys && Encode(OldNum(n)) in a
    ensures c == b[Encode(Num(n)) := Get(b, OldNum(n))] - {Encode(OldNum(n))}
    ensures NumbersConverted(a, c, keys - {Encode(OldNum(n))})
  {
    c := b[Encode(Num(n)) := Get(b, OldNum(n))];
    PutGets(b, Num(n), Get(b, OldNum(n)));
    DeleteGets(c, OldNum(n));
    c := c - {Encode(OldNum(n))};
    var raw := Encode(OldNum(n));
    forall j: Key | j.Valid() ensures (Encode(j) == Encode(Num(n)) ==> j == Num(n)) && (Encode(j) == raw ==> j == OldNum(n)) {
      if Encode(j) == Encode(Num(n)) { EncodeInjective(j, Num(n)); }
      if Encode(j) == raw { EncodeInjective(j, OldNum(n)); }
    }
    forall k: nat | k < LIMIT ensures NumberConverted(a, c, keys - {raw}, k) {
      assert Num(k).Valid() && OldNum(k).Valid() && NumberConverted(a, b, keys, k);
      hide Encode;
    }
  }

  /** Before anything is visited nothing has changed, and long keys are passed over. */
  lemma NumbersUnvisited(a: Db, b: Db, keys: set<Bytes>, raw: Bytes)
    requires NumbersConverted(a, b, keys) && 20 <= |raw|
    ensures NumbersConverted(a, b, keys - {raw})
  {
    hide Encode, Get;
    forall n: nat | n < LIMIT ensures NumberConverted(a, b, keys - {raw}, n) {
      Scanned(OldNum(n), seq(32, _ => 0));
      assert NumberConverted(a, b, keys, n);
    }
  }

  lemma NumbersStart(a: Db, keys: set<Bytes>)
    requires forall raw <- a :: OLD_NUMBER <= raw ==> raw in keys
    ensures NumbersConverted(a, a, keys)
  {
    hide Encode, Get;
    forall n: nat | n < LIMIT ensures NumberConverted(a, a, keys, n) {
      Scanned(OldNum(n), seq(32, _ => 0));
    }
  }

  /** An entry once the number and the given parts of block `hash` have been copied. */
  ghost function CopiedEntry(a: Db, hash: Bytes, n: nat, parts: set<Part>, j: Key): Bytes {
    if j == NumberOf(hash) then BigEndian(n, 8)
    else if j.At? && j.hash == hash && j.n == n && j.part in parts && Get(a, OldAt(j.part, hash)) != [] then
      Get(a, OldAt(j.part, hash))
    else Get(a, j)
  }

  ghost predicate CopyOf(a: Db, b: Db, hash: Bytes, n: nat, parts: set<Part>) {
    forall j: Key | j.Valid() :: Get(b, j) == CopiedEntry(a, hash, n, parts, j)
  }

  lemma CopyNumber(a: Db, hash: Bytes, n: nat)
    requires |hash| == 32 && n < LIMIT
    ensures CopyOf(a, a[Encode(NumberOf(hash)) := BigEndian(n, 8)], hash, n, {})
  {
    PutGets(a, NumberOf(hash), BigEndian(n, 8));
  }

  lemma CopyMore(a: Db, b: Db, hash: Bytes, n: nat, parts: set<Part>, p: Part)
    requires CopyOf(a, b, hash, n, parts) && |hash| == 32 && n < LIMIT
    ensures var v := Get(a, OldAt(p, hash));
            CopyOf(a, if v == [] then b else b[Encode(At(p, n, hash)) := v], hash, n, parts + {p})
  {
    PutGets(b, At(p, n, hash), Get(a, OldAt(p, hash)));
    hide Get, Encode, BigEndian;
  }

  lemma CopyMoving(a: Db, b: Db, decode: Decoder, hash: Bytes, n: nat, parts: set<Part>)
    requires CopyOf(a, b, hash, n, parts) && |hash| == 32
    ensures forall p :: Get(b, OldAt(p, hash)) == Get(a, OldAt(p, hash))
    ensures Moving(a, decode, hash, n) ==> Moving(b, decode, hash, n)
  {
    hide Get, Encode, BigEndian;
    assert forall p :: OldAt(p, hash).Valid();
  }

  lemma CopyExpendable(a: Db, b: Db, decode: Decoder, hash: Bytes, n: nat)
    requires CopyOf(a, b, hash, n, ALL) && Moving(a, decode, hash, n) && n < LIMIT
    ensures Expendable(b, decode, hash)
  {
    CopyMoving(a, b, decode, hash, n, ALL);
    hide Get, Encode, BigEndian;
    assert NumberOf(hash).Valid();
    forall p ensures Get(b, OldAt(p, hash)) in {[], Get(b, At(p, n, hash))} {
      AllParts();
      assert At(p, n, hash).Valid();
    }
  }

  lemma CopyBounded(a: Db, b: Db, decode: Decoder, hash: Bytes, n: nat)
    requires CopyOf(a, b, hash, n, ALL) && BoundedAt(a, decode, hash) && |hash| == 32 && n < LIMIT
    ensures BoundedAt(b, decode, hash)
  {
    assert NumberOf(hash).Valid() && OldAt(Head, hash).Valid();
    EightBytes();
    BigEndianRoundTrip(n, 8);
    hide Encode, Get, BigEndian, Number;
  }

  lemma ErasedExpendable(a: Db, b: Db, decode: Decoder, hash: Bytes)
    requires |hash| == 32 && Expendable(a, decode, hash) && BoundedAt(a, decode, hash) && Erased(a, b, hash)
    ensures Expendable(b, decode, hash) && BoundedAt(b, decode, hash)
  {
    hide Encode, Get, BigEndian, Number;
    assert NumberOf(hash).Valid() && OldAt(Head, hash).Valid();
    var header := Get(b, OldAt(Head, hash));
    if header != [] {
      var n := decode(header).value;
      forall p ensures Get(b, OldAt(p, hash)) in {[], Get(b, At(p, n, hash))} {
        assert At(p, n, hash).Valid() && OldAt(p, hash).Valid();
      }
    }
  }

  /** An entry once block `hash` has been visited: new entries hold what the old ones held, and those are gone. */
  ghost function ConvertedEntry(a: Db, decode: Decoder, hash: Bytes, j: Key): Bytes {
    var header := Get(a, OldAt(Head, hash));
    if j.OldAt? && j.hash == hash then []
    else if header != [] && decode(header).Some? then CopiedEntry(a, hash, decode(header).value, ALL, j)
    else Get(a, j)
  }

  ghost predicate Decodable(a: Db, decode: Decoder, hash: Bytes) {
    Get(a, OldAt(Head, hash)) != [] ==> decode(Get(a, OldAt(Head, hash))).Some?
  }

  ghost predicate BlockConverted(a: Db, b: Db, decode: Decoder, hash: Bytes) {
    Decodable(a, decode, hash) && forall j: Key | j.Valid() :: Get(b, j) == ConvertedEntry(a, decode, hash, j)
  }

  /** Copying and then deleting all old entries converts the block. */
  lemma EraseCopied(a: Db, b: Db, decode: Decoder, hash: Bytes, keys: set<Bytes>)
    requires |hash| == 32 && Decodable(a, decode, hash)
    requires var header := Get(a, OldAt(Head, hash));
             if header == [] then b == a else CopyOf(a, b, hash, decode(header).value, ALL)
    requires forall raw <- keys :: OLD_BLOCK + hash <= raw
    requires forall p :: p != Receipts && Get(a, OldAt(p, hash)) != [] ==> Encode(OldAt(p, hash)) in keys
    ensures BlockConverted(a, b - keys - {Encode(OldAt(Receipts, hash))}, decode, hash)
  {
    var c := b - keys - {Encode(OldAt(Receipts, hash))};
    forall j: Key | j.Valid() ensures Get(c, j) == ConvertedEntry(a, decode, hash, j) {
      Scanned(j, hash);
      if Encode(j) == Encode(OldAt(Receipts, hash)) {
        EncodeInjective(j, OldAt(Receipts, hash));
      }
      hide Encode;
      assert Get(b, j) == if Get(a, OldAt(Head, hash)) == [] then Get(a, j)
                          else CopiedEntry(a, hash, decode(Get(a, OldAt(Head, hash))).value, ALL, j);
    }
  }

  /** Some entry of the block is still to be visited. */
  ghost predicate Waiting(keys: set<Bytes>, hash: Bytes) {
    exists raw <- keys :: OLD_BLOCK + hash <= raw
  }

  /** What the second pass has made of a block: nothing yet, or all of it.  Receipts of a block that has no other
      old entry are left to the third pass. */
  ghost predicate BlockPartly(a: Db, b: Db, decode: Decoder, keys: set<Bytes>, hash: Bytes) {
    if Waiting(keys, hash) then
      forall j: Key | j.Valid() && Touches(j, hash) :: Get(b, j) == Get(a, j)
    else
      && Decodable(a, decode, hash)
      && forall j: Key | j.Valid() && Touches(j, hash) ::
           || Get(b, j) == ConvertedEntry(a, decode, hash, j)
           || (j == OldAt(Receipts, hash) && Get(b, j) == Get(a, j))
  }

  ghost predicate BlocksConverted(a: Db, b: Db, decode: Decoder, keys: set<Bytes>) {
    && (forall j: Key | j.Valid() && (j.Num? || j.OldNum?) :: Get(b, j) == Get(a, j))
    && (forall hash | |hash| == 32 :: BlockPartly(a, b, decode, keys, hash))
  }

  /** Blocks are visited whole. */
  ghost predicate WholeBlocks(a: Db, keys: set<Bytes>) {
    forall raw <- a :: OLD_BLOCK <= raw && 38 <= |raw| && raw !in keys ==> !Waiting(keys, raw[6..38])
  }

  function Group(keys: set<Bytes>, hash: Bytes): set<Bytes> {
    set raw <- keys | OLD_BLOCK + hash <= raw
  }

  lemma GroupGone(keys: set<Bytes>, hash: Bytes, other: Bytes)
    requires |hash| == 32 && |other| == 32
    ensures Waiting(keys - Group(keys, hash), other) == (Waiting(keys, other) && other != hash)
  {
    if Waiting(keys, other) && other != hash {
      var raw :| raw in keys && OLD_BLOCK + other <= raw;
      assert (OLD_BLOCK + hash)[6..] == hash && (OLD_BLOCK + other)[6..] == other;
      assert raw in keys - Group(keys, hash);
    }
  }

  lemma ConvertBlock(a: Db, b: Db, c: Db, decode: Decoder, keys: set<Bytes>, hash: Bytes)
    requires BlocksConverted(a, b, decode, keys) && |hash| == 32 && Waiting(keys, hash)
    requires BlockConverted(b, c, decode, hash)
    ensures BlocksConverted(a, c, decode, keys - Group(keys, hash))
  {
    hide Encode, Get, Waiting, Group, BigEndian;
    forall h | |h| == 32 ensures BlockPartly(a, c, decode, keys - Group(keys, hash), h) {
      assert BlockPartly(a, b, decode, keys, h);
      GroupGone(keys, hash, h);
      if h == hash {
        ConvertHere(a, b, c, decode, hash);
      }
    }
  }

  lemma ConvertHere(a: Db, b: Db, c: Db, decode: Decoder, hash: Bytes)
    requires |hash| == 32 && BlockConverted(b, c, decode, hash)
    requires forall j: Key | j.Valid() && Touches(j, hash) :: Get(b, j) == Get(a, j)
    ensures Decodable(a, decode, hash)
    ensures forall j: Key | j.Valid() && Touches(j, hash) :: Get(c, j) == ConvertedEntry(a, decode, hash, j)
  {
    hide Encode, Get, BigEndian;
    assert forall p :: OldAt(p, hash).Valid();
  }

  lemma BlocksStart(a: Db, decode: Decoder, keys: set<Bytes>)
    requires forall raw <- a :: OLD_BLOCK <= raw ==> raw in keys
    ensures BlocksConverted(a, a, decode, keys) && WholeBlocks(a, keys)
  {
    hide Encode, BigEndian;
    forall hash | |hash| == 32 ensures BlockPartly(a, a, decode, keys, hash) {
      forall p | p != Receipts ensures Get(a, OldAt(p, hash)) != [] ==> Waiting(keys, hash) {
        Scanned(OldAt(p, hash), hash);
      }
    }
  }

  /** Keys too short to belong to a block are passed over. */
  lemma ShortKey(a: Db, b: Db, decode: Decoder, keys: set<Bytes>, raw: Bytes)
    requires BlocksConverted(a, b, decode, keys) && WholeBlocks(a, keys) && |raw| < 38
    ensures BlocksConverted(a, b, decode, keys - {raw}) && WholeBlocks(a, keys - {raw})
  {
    hide Encode, Get, ConvertedEntry;
    forall hash | |hash| == 32
      ensures Waiting(keys - {raw}, hash) == Waiting(keys, hash) && BlockPartly(a, b, decode, keys - {raw}, hash)
    {
      assert BlockPartly(a, b, decode, keys, hash);
      if Waiting(keys, hash) {
        var k :| k in keys && OLD_BLOCK + hash <= k;
        assert k in keys - {raw};
      }
    }
  }

  lemma WholeGroup(a: Db, keys: set<Bytes>, hash: Bytes)
    requires WholeBlocks(a, keys) && |hash| == 32
    ensures WholeBlocks(a, keys - Group(keys, hash))
  {
    forall raw <- a | OLD_BLOCK <= raw && 38 <= |raw| && raw !in keys - Group(keys, hash)
      ensures !Waiting(keys - Group(keys, hash), raw[6..38])
    {
      GroupGone(keys, hash, raw[6..38]);
      assert OLD_BLOCK + hash <= raw ==> raw[6..38] == (OLD_BLOCK + hash)[6..];
    }
  }

  /** A waiting block is as it was, and all its old entries are still to be visited. */
  lemma WaitingBlock(a: Db, b: Db, decode: Decoder, keys: set<Bytes>, hash: Bytes)
    requires BlocksConverted(a, b, decode, keys) && WholeBlocks(a, keys) && |hash| == 32 && Waiting(keys, hash)
    requires BoundedAt(a, decode, hash)
    ensures BoundedAt(b, decode, hash) && Decodable(b, decode, hash) == Decodable(a, decode, hash)
    ensures forall p :: p != Receipts && Get(b, OldAt(p, hash)) != [] ==> Encode(OldAt(p, hash)) in Group(keys, hash)
  {
    hide BigEndian, Number;
    assert BlockPartly(a, b, decode, keys, hash);
    assert NumberOf(hash).Valid() && OldAt(Head, hash).Valid();
    forall p | p != Receipts && Get(b, OldAt(p, hash)) != [] ensures Encode(OldAt(p, hash)) in Group(keys, hash) {
      var raw := Encode(OldAt(p, hash));
      assert OldAt(p, hash).Valid();
      Scanned(OldAt(p, hash), hash);
      assert raw[6..38] == (OLD_BLOCK + hash)[6..];
      assert raw in a;
    }
  }

  /** No reader looks at this key. */
  ghost predicate Unread(raw: Bytes) {
    forall j: Key | j.Valid() :: Encode(j) != raw
  }

  /** Writing or deleting a key no reader looks at changes nothing for them. */
  lemma UnreadStep(a: Db, b: Db, decode: Decoder, raw: Bytes)
    requires Ready(a, decode) && Unread(raw) && !(OLD_NUMBER <= raw)
    requires forall k | k != raw :: (k in b <==> k in a) && (k in a ==> b[k] == a[k])
    ensures Ready(b, decode) && Same(a, b, decode)
  {
    forall j: Key | j.Valid() ensures Get(b, j) == Get(a, j) {}
    forall n: nat | n < LIMIT ensures Get(b, Num(n)) == Get(a, Num(n)) && Get(b, OldNum(n)) == Get(a, OldNum(n))
      && (Encode(OldNum(n)) in b <==> Encode(OldNum(n)) in a)
    {
      assert Num(n).Valid() && OldNum(n).Valid();
    }
    hide Encode, Get, ToHash, BoundedAt, BlocksAgree, PlainNumber;
    NumberStep(a, b, decode);
  }

  ghost predicate NoOldHeaders(db: Db) {
    forall hash | |hash| == 32 :: Get(db, OldAt(Head, hash)) == []
  }

  /** Once no old header is left, old receipts can go. */
  lemma DeleteOrphan(db: Db, decode: Decoder, raw: Bytes) returns (b: Db)
    requires Ready(db, decode) && NoOldHeaders(db) && OLD_RECEIPTS <= raw
    ensures b == db - {raw} && Ready(b, decode) && Same(db, b, decode)
  {
    hide Encode, Get, Ready, Same, BigEndian;
    b := db - {raw};
    if |raw| == 47 {
      var hash := raw[15..];
      assert raw == Encode(OldAt(Receipts, hash)) by {
        OrphanKey(raw);
      }
      b := DeleteOld(db, decode, hash, raw);
    } else {
      forall j: Key | j.Valid() ensures Encode(j) != raw {
        Scanned(j, seq(32, _ => 0));
        Shape(j);
      }
      assert raw[0] == OLD_RECEIPTS[0] != OLD_NUMBER[0];
      UnreadStep(db, b, decode, raw);
    }
  }

  lemma OrphanKey(raw: Bytes)
    requires OLD_RECEIPTS <= raw && |raw| == 47
    ensures raw == Encode(OldAt(Receipts, raw[15..]))
  {
    assert raw == OLD_RECEIPTS + raw[15..];
  }

  /** The content of a database after the whole migration. */
  ghost predicate Converted(a: Db, b: Db, decode: Decoder) {
    && (forall n: nat | n < LIMIT ::
          Get(b, OldNum(n)) == [] && Get(b, Num(n)) == Get(a, if Encode(OldNum(n)) in a then OldNum(n) else Num(n)))
    && (forall hash | |hash| == 32 :: BlockDone(a, b, decode, hash))
  }

  ghost predicate BlockDone(a: Db, b: Db, decode: Decoder, hash: Bytes) {
    && Decodable(a, decode, hash)
    && forall j: Key | j.Valid() && Touches(j, hash) :: Get(b, j) == ConvertedEntry(a, decode, hash, j)
  }

  lemma PassesConvert(a: Db, b: Db, c: Db, d: Db, decode: Decoder)
    requires NumbersConverted(a, b, {}) && BlocksConverted(b, c, decode, {})
    requires d == c - set raw <- c.Keys | OLD_RECEIPTS <= raw
    ensures Converted(a, d, decode)
  {
    hide Encode;
    forall j: Key | j.Valid() ensures Get(d, j) == if j.OldAt? && j.part == Receipts then [] else Get(c, j) {
      Scanned(j, seq(32, _ => 0));
    }
    hide Get, ConvertedEntry;
    forall n: nat | n < LIMIT
      ensures Get(d, OldNum(n)) == [] && Get(d, Num(n)) == Get(a, if Encode(OldNum(n)) in a then OldNum(n) else Num(n))
    {
      assert Num(n).Valid() && OldNum(n).Valid() && NumberConverted(a, b, {}, n);
      AbsentGet(a, n);
      AbsentGet(b, n);
    }
    forall hash | |hash| == 32 ensures BlockDone(a, d, decode, hash) {
      assert BlockPartly(b, c, decode, {}, hash);
      EntriesElsewhere(a, b, decode, hash);
      OldEntriesGone(a, decode, hash);
    }
  }

  lemma AbsentGet(a: Db, n: nat)
    ensures Encode(OldNum(n)) !in a ==> Get(a, OldNum(n)) == []
  {
  }

  lemma OldEntriesGone(a: Db, decode: Decoder, hash: Bytes)
    ensures forall p :: ConvertedEntry(a, decode, hash, OldAt(p, hash)) == []
  {
  }

  lemma FlagUnread()
    ensures Unread(FLAG)
  {
    forall j: Key | j.Valid() ensures Encode(j) != FLAG {
      Shape(j);
    }
  }

  /** Raising the flag leaves a converted database converted. */
  lemma FlagConverted(a: Db, b: Db, decode: Decoder)
    requires Converted(a, b, decode)
    ensures Converted(a, b[FLAG := [42]], decode)
  {
    var c := b[FLAG := [42]];
    FlagUnread();
    forall j: Key | j.Valid() ensures Get(c, j) == Get(b, j) {
    }
    hide Encode, Get, ConvertedEntry;
    forall n: nat | n < LIMIT ensures Get(c, Num(n)) == Get(b, Num(n)) && Get(c, OldNum(n)) == Get(b, OldNum(n)) {
      assert Num(n).Valid() && OldNum(n).Valid();
    }
    forall hash | |hash| == 32 ensures BlockDone(a, c, decode, hash) {
      assert BlockDone(a, b, decode, hash);
    }
  }

  /** After the second pass no old header is left. */
  lemma HeadersGone(a: Db, b: Db, decode: Decoder)
    requires BlocksConverted(a, b, decode, {})
    ensures NoOldHeaders(b)
  {
    hide Encode, Get;
    forall hash | |hash| == 32 ensures Get(b, OldAt(Head, hash)) == [] {
      assert BlockPartly(a, b, decode, {}, hash) && OldAt(Head, hash).Valid();
    }
  }

  /** A key that is neither the flag nor in the old or the new layout of chain data. */
  ghost predicate Foreign(raw: Bytes) {
    && raw != FLAG && !(OLD_NUMBER <= raw) && !(OLD_BLOCK <= raw) && !(OLD_RECEIPTS <= raw)
    && forall k: Key | k.Valid() :: Encode(k) != raw
  }

  ghost predicate SameElsewhere(a: Db, b: Db) {
    forall raw | Foreign(raw) :: (raw in b <==> raw in a) && (raw in a ==> b[raw] == a[raw])
  }

  lemma PutElsewhere(a: Db, b: Db, k: Key, v: Bytes)
    requires SameElsewhere(a, b) && k.Valid()
    ensures SameElsewhere(a, b[Encode(k) := v])
  {
    hide Encode;
  }

  lemma DeleteElsewhere(a: Db, b: Db, raw: Bytes)
    requires SameElsewhere(a, b) && !Foreign(raw)
    ensures SameElsewhere(a, b - {raw})
  {
    hide Foreign;
  }

  lemma OldEntryKnown(hash: Bytes, raw: Bytes)
    requires |hash| == 32 && (OLD_BLOCK + hash <= raw || raw == Encode(OldAt(Receipts, hash)))
    ensures !Foreign(raw)
  {
    assert OldAt(Receipts, hash).Valid();
    if OLD_BLOCK + hash <= raw {
      assert OLD_BLOCK == (OLD_BLOCK + hash)[..|OLD_BLOCK|] == raw[..|OLD_BLOCK|];
    }
  }

  /** Every old header decodes. */
  ghost predicate AllDecodable(db: Db, decode: Decoder) {
    forall hash | |hash| == 32 :: Decodable(db, decode, hash)
  }

  lemma ConvertedDecodable(a: Db, b: Db, decode: Decoder)
    requires Converted(a, b, decode)
    ensures AllDecodable(a, decode)
  {
    hide Decodable;
    forall hash | |hash| == 32 ensures Decodable(a, decode, hash) {
      assert BlockDone(a, b, decode, hash);
    }
  }

  lemma NumbersDecodable(a: Db, b: Db, decode: Decoder)
    requires NumbersConverted(a, b, {})
    ensures AllDecodable(a, decode) == AllDecodable(b, decode)
  {
    forall hash | |hash| == 32 ensures Decodable(a, decode, hash) == Decodable(b, decode, hash) {
      EntriesElsewhere(a, b, decode, hash);
    }
  }

  /** The first pass leaves the second one the same work. */
  lemma EntriesElsewhere(a: Db, b: Db, decode: Decoder, hash: Bytes)
    requires |hash| == 32 && forall j: Key | j.Valid() && !j.Num? && !j.OldNum? :: Get(b, j) == Get(a, j)
    ensures Decodable(a, decode, hash) == Decodable(b, decode, hash)
    ensures BoundedAt(a, decode, hash) == BoundedAt(b, decode, hash)
    ensures forall j: Key | j.Valid() && Touches(j, hash) ::
              ConvertedEntry(b, decode, hash, j) == ConvertedEntry(a, decode, hash, j)
  {
    hide Encode, Get, BigEndian;
    assert forall p :: OldAt(p, hash).Valid();
    assert NumberOf(hash).Valid();
  }

  lemma NumbersBounded(a: Db, b: Db, decode: Decoder)
    requires Bounded(a, decode) && NumbersConverted(a, b, {})
    ensures forall hash | |hash| == 32 :: BoundedAt(b, decode, hash)
  {
    hide Encode, Get, BoundedAt, NumberConverted, PlainNumber;
    forall hash | |hash| == 32 ensures BoundedAt(b, decode, hash) {
      EntriesElsewhere(a, b, decode, hash);
    }
  }

  /** The finished migration has changed no reader's answer if and only if the entries agreed when it began. */
  lemma ConvertedSameIff(a: Db, b: Db, decode: Decoder)
    requires Bounded(a, decode) && Converted(a, b, decode)
    ensures Same(a, b, decode) <==> Agrees(a, decode)
  {
    hide Encode, Get, ToHash, BlockDone, BoundedAt, BlockAgrees, SameBlock, PlainNumber, NumberAt, Read;
    forall n: nat | n < LIMIT
      ensures CanonicalHash(b, n) == if Encode(OldNum(n)) in a then ToHash(Get(a, OldNum(n))) else CanonicalHash(a, n)
    {
      AbsentGet(a, n);
    }
    forall hash, n | Stored(a, decode, hash, n)
      ensures SameBlock(a, b, decode, hash, n) == BlockAgrees(a, decode, hash, n)
    {
      BlockSameIff(a, b, decode, hash, n);
    }
  }

  lemma BlockSameIff(a: Db, b: Db, decode: Decoder, hash: Bytes, n: nat)
    requires BlockDone(a, b, decode, hash) && Stored(a, decode, hash, n) && BoundedAt(a, decode, hash)
    ensures SameBlock(a, b, decode, hash, n) == BlockAgrees(a, decode, hash, n)
  {
    hide Encode, Get;
    assert NumberOf(hash).Valid() && OldAt(Head, hash).Valid();
    var header := Get(a, OldAt(Head, hash));
    if header != [] {
      EightBytes();
      BigEndianRoundTrip(decode(header).value, 8);
    }
    forall p ensures PartConverted(a, b, decode, hash, n, p) {
      AllParts();
      assert OldAt(p, hash).Valid() && At(p, n, hash).Valid();
    }
    hide BigEndian, Number, BlockDone, BoundedAt;
    if header == [] || decode(header).value == n {
      PartsSameIff(a, b, decode, hash, n);
    }
  }

  lemma PartsSameIff(a: Db, b: Db, decode: Decoder, hash: Bytes, n: nat)
    requires |hash| == 32 && Decodable(a, decode, hash)
    requires Get(a, OldAt(Head, hash)) == [] || Moving(a, decode, hash, n)
    requires forall p :: PartConverted(a, b, decode, hash, n, p)
    ensures (forall p :: Read(b, p, hash, n) == Read(a, p, hash, n)) == BlockAgrees(a, decode, hash, n)
  {
    hide Encode, Get;
    forall p ensures Read(b, p, hash, n) == Read(a, p, hash, n) <==> PartAgrees(a, hash, n, p) {
      assert PartConverted(a, b, decode, hash, n, p);
    }
  }

  ghost predicate PartConverted(a: Db, b: Db, decode: Decoder, hash: Bytes, n: nat, p: Part) {
    var copied := Moving(a, decode, hash, n) && Get(a, OldAt(p, hash)) != [];
    Get(b, OldAt(p, hash)) == [] && Get(b, At(p, n, hash)) == Get(a, if copied then OldAt(p, hash) else At(p, n, hash))
  }

  lemma AllParts()
    ensures forall p: Part :: p in ALL
  {
    forall p: Part ensures p in ALL {
      assert p == Head || p == Difficulty || p == Body || p == Receipts;
    }
  }

  /** A database in use, with a canonical hash rewritten in the new layout and a stale one left in the old. */
  function StaleDatabase(n: nat, stale: Bytes, newer: Bytes): Db {
    map[LAST_HEADER := newer, Encode(OldNum(n)) := stale, Encode(Num(n)) := newer]
  }

  /** There agreement fails: the finished migration brings the stale hash back. */
  lemma StaleDisagrees(decode: Decoder, n: nat, stale: Bytes, newer: Bytes, db: Db)
    requires n < LIMIT && |stale| == 32 && |newer| == 32 && db == StaleDatabase(n, stale, newer)
    ensures Bounded(db, decode) && FLAG !in db && LAST_HEADER in db && db[LAST_HEADER] != []
    ensures CanonicalHash(db, n) == newer
    ensures forall b | Converted(db, b, decode) :: CanonicalHash(b, n) == stale
  {
    hide Encode, Number, Minimal, BigEndian, BlockDone, Bounded;
    SameShapes(n);
    StaleBounded(decode, n, stale, newer);
    assert Get(db, Num(n)) == newer && Get(db, OldNum(n)) == stale;
  }

  lemma StaleBounded(decode: Decoder, n: nat, stale: Bytes, newer: Bytes)
    requires n < LIMIT
    ensures Bounded(StaleDatabase(n, stale, newer), decode)
  {
    var db := StaleDatabase(n, stale, newer);
    forall hash | |hash| == 32 ensures BoundedAt(db, decode, hash) {
      OtherShapes(n, hash);
      hide Encode, Number, Minimal, BigEndian;
    }
    PlainOld(n);
    hide Encode, Number, BoundedAt, PlainNumber;
    assert LAST_HEADER[0] != OLD_NUMBER[0];
  }

  lemma PlainOld(n: nat)
    requires n < LIMIT
    ensures OLD_NUMBER <= Encode(OldNum(n)) && PlainNumber(Encode(OldNum(n))) && !(OLD_NUMBER <= Encode(Num(n)))
  {
    assert Encode(OldNum(n))[10..] == Minimal(n);
    MinimalRoundTrip(n);
    Scanned(Num(n), seq(32, _ => 0));
  }

  /** It has no old header that could fail to decode. */
  lemma StaleDecodable(decode: Decoder, n: nat, stale: Bytes, newer: Bytes)
    requires n < LIMIT
    ensures AllDecodable(StaleDatabase(n, stale, newer), decode)
  {
    forall hash | |hash| == 32 ensures Decodable(StaleDatabase(n, stale, newer), decode, hash) {
      OtherShapes(n, hash);
      hide Encode;
    }
  }

  lemma SameShapes(n: nat)
    requires n < LIMIT
    ensures Encode(OldNum(n)) != Encode(Num(n))
    ensures {FLAG, LAST_HEADER} !! {Encode(OldNum(n)), Encode(Num(n))} && FLAG != LAST_HEADER
  {
    Shape(OldNum(n));
    Shape(Num(n));
    assert FLAG[0] == 0x64 && LAST_HEADER[0] == 0x4c;
  }

  lemma OtherShapes(n: nat, hash: Bytes)
    requires n < LIMIT && |hash| == 32
    ensures {Encode(NumberOf(hash)), Encode(OldAt(Head, hash))} !! {Encode(OldNum(n)), Encode(Num(n)), LAST_HEADER}
  {
    Shape(OldNum(n));
    Shape(Num(n));
    Shape(NumberOf(hash));
    Shape(OldAt(Head, hash));
    assert LAST_HEADER[0] == 0x4c;
  }
}
