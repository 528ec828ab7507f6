/** The three passes of the key migration, which may stop or fail after any single write. */
module SequentialKeys {

  import opened ChainTypes
  import opened KeyLayout
  import opened KeyMigration
  import opened KeyConversion

  const WORD: nat := 0x1_0000_0000_0000_0000

  datatype Outcome = AlreadyConverted | Empty | Finished | Stopped | Failed

  predicate IsFlagged(db: Db) {
    FLAG in db && |db[FLAG]| > 0 && db[FLAG][0] == 42
  }

  predicate IsEmpty(db: Db) {
    LAST_HEADER !in db || db[LAST_HEADER] == []
  }

  ghost predicate Spared(f: nat -> bool, from: nat, to: nat) {
    forall k: nat | from <= k < to :: !f(k)
  }

  lemma SparedNext(f: nat -> bool, from: nat, to: nat)
    requires from <= to
    ensures Spared(f, from, from) && (Spared(f, from, to + 1) <==> Spared(f, from, to) && !f(to))
  {
  }

  /** An outcome has its reason: a stop was asked for, a write failed or an old header does not decode, or none of it. */
  ghost predicate Accounted(outcome: Outcome, failing: nat -> bool, write: nat, write': nat, stops: nat -> bool, poll: nat,
                            poll': nat, decodable: bool) {
    && write <= write' && poll <= poll' && (outcome == Stopped <==> !Spared(stops, poll, poll'))
    && (outcome == Stopped ==> Spared(failing, write, write'))
    && (outcome == Failed ==> !Spared(failing, write, write') || !decodable)
    && (outcome == Finished ==> write < write' && Spared(failing, write, write' - 1) && decodable)
  }

  lemma AccountedAtOnce(failing: nat -> bool, write: nat, stops: nat -> bool, poll: nat, decodable: bool)
    ensures Accounted(AlreadyConverted, failing, write, write, stops, poll, poll, decodable)
    ensures Accounted(Empty, failing, write, write + 1, stops, poll, poll, decodable)
  {
  }

  lemma AccountedInPeace(outcome: Outcome, failing: nat -> bool, write: nat, write': nat, stops: nat -> bool, poll: nat,
                         poll': nat, decodable: bool)
    requires Accounted(outcome, failing, write, write', stops, poll, poll', decodable)
    ensures (forall k: nat :: !failing(k) && !stops(k)) && decodable ==> outcome != Stopped && outcome != Failed
    ensures outcome == Finished ==> 0 < write'
  {
  }

  class ChainDatabase {
    var data: Db
    // Which writes fail, by their number, and which polls find that a stop was asked for.
    const failing: nat -> bool
    const stops: nat -> bool
    var writes: nat
    var polls: nat
    /** Every content the database has had since the migration began. */
    ghost var history: seq<Db>
    // Where the migration began, whether a write of it has failed, and whether it was asked to stop.
    ghost var firstWrite: nat
    ghost var firstPoll: nat
    ghost var failed: bool
    ghost var asked: bool

    constructor (content: Db, failing: nat -> bool, stops: nat -> bool)
      ensures data == content && this.failing == failing && this.stops == stops
    {
      data, history, writes, polls := content, [content], 0, 0;
      firstWrite, firstPoll, failed, asked := 0, 0, false, false;
      this.failing, this.stops := failing, stops;
    }

    ghost predicate Recorded()
      reads `writes, `polls, `firstWrite, `firstPoll, `failed, `asked
    {
      && firstWrite <= writes && failed == !Spared(failing, firstWrite, writes)
      && firstPoll <= polls && asked == !Spared(stops, firstPoll, polls)
    }

    method Poll() returns (stopped: bool)
      requires Recorded()
      modifies `polls, `asked
      ensures Recorded() && asked == (old(asked) || stopped)
    {
      SparedNext(stops, firstPoll, polls);
      stopped := stops(polls);
      polls, asked := polls + 1, asked || stopped;
    }

    /** A write either fails or takes place. */
    method Put(key: Bytes, value: Bytes) returns (ok: bool)
      requires Recorded()
      modifies `data, `history, `writes, `failed
      ensures data == if ok then old(data)[key := value] else old(data)
      ensures history == old(history) + [data] && Recorded() && failed == (old(failed) || !ok)
      ensures writes == old(writes) + 1 && ok == !failing(old(writes))
    {
      SparedNext(failing, firstWrite, writes);
      ok := !failing(writes);
      if ok {
        data := data[key := value];
      }
      history, writes, failed := history + [data], writes + 1, failed || !ok;
    }

    method Delete(key: Bytes) returns (ok: bool)
      requires Recorded()
      modifies `data, `history, `writes, `failed
      ensures data == if ok then old(data) - {key} else old(data)
      ensures history == old(history) + [data] && Recorded() && failed == (old(failed) || !ok)
    {
      SparedNext(failing, firstWrite, writes);
      ok := !failing(writes);
      if ok {
        data := data - {key};
      }
      history, writes, failed := history + [data], writes + 1, failed || !ok;
    }

    /** Entries that are none of its business are as they were.  If the migration began on entries that agree, readers
        have seen no difference at any moment, and from every one of these moments it can begin again. */
    ghost predicate Undisturbed(start: Db, decode: Decoder)
      reads `data, `history
    {
      && SameElsewhere(start, data)
      && (Ready(start, decode) ==>
            Ready(data, decode) && Same(start, data, decode)
            && forall d <- history :: Ready(d, decode) && Same(start, d, decode))
    }

    method UpgradeNumber(raw: Bytes, ghost start: Db, ghost decode: Decoder) returns (ok: bool)
      requires Undisturbed(start, decode) && raw in data && OLD_NUMBER <= raw && PlainNumber(raw)
      requires Recorded() && !failed
      modifies `data, `history, `writes, `failed
      ensures old(history) <= history && Recorded() && ok == !failed
      ensures Undisturbed(start, decode)
      ensures var n := Number(raw[10..]);
              ok ==> data == old(data)[Encode(Num(n)) := Get(old(data), OldNum(n))] - {raw}
    {
      hide Ready, Same, Encode, Number, Recorded, SameElsewhere;
      var n := Number(raw[10..]) % WORD;
      ghost var before := data;
      if Ready(start, decode) {
        ghost var b := PutNumber(data, decode, n);
        SameTrans(start, before, b, decode);
      }
      PutElsewhere(start, data, Num(n), data[raw]);
      ok := Put(Encode(Num(n)), data[raw]);
      if ok {
        ghost var middle := data;
        PutGets(before, Num(n), before[raw]);
        assert Get(middle, Num(n)) == Get(middle, OldNum(n));
        if Ready(start, decode) {
          ghost var b := DeleteNumber(data, decode, n);
          SameTrans(start, middle, b, decode);
        }
        DeleteElsewhere(start, data, raw);
        ok := Delete(raw);
      }
    }

    /** The first pass: canonical hashes. */
    method UpgradeNumbers(ghost start: Db, ghost decode: Decoder) returns (ok: bool, stopped: bool)
      requires Undisturbed(start, decode) && Bounded(data, decode)
      requires Recorded() && !failed && !asked
      modifies `data, `history, `writes, `failed, `polls, `asked
      ensures old(history) <= history && Recorded() && ok == !failed
      ensures stopped == asked && (ok || !stopped)
      ensures Undisturbed(start, decode)
      ensures ok && !stopped ==> NumbersConverted(old(data), data, {})
    {
      hide Undisturbed, Encode, Number, NumbersConverted, BoundedAt, Recorded;
      var keys := set raw <- data.Keys | OLD_NUMBER <= raw;
      NumbersStart(data, keys);
      ok, stopped := true, false;
      while keys != {}
        invariant old(history) <= history && Recorded() && !failed && !asked
        invariant ok && !stopped && Undisturbed(start, decode)
        invariant forall raw <- keys :: raw in data && raw in old(data) && OLD_NUMBER <= raw
        invariant NumbersConverted(old(data), data, keys)
        decreases |keys|
      {
        var raw :| raw in keys;
        if |raw| < 20 {
          ghost var before := data;
          ok := UpgradeNumber(raw, start, decode);
          if !ok {
            return;
          }
          ghost var c := ConvertNumber(old(data), before, keys, Number(raw[10..]));
        } else {
          NumbersUnvisited(old(data), data, keys, raw);
        }
        keys := keys - {raw};
        stopped := Poll();
        if stopped {
          return;
        }
      }
    }

    method CopyPart(p: Part, hash: Bytes, n: nat, value: Bytes, ghost a: Db, ghost parts: set<Part>, ghost start: Db,
                    ghost decode: Decoder)
      returns (ok: bool)
      requires Undisturbed(start, decode) && Moving(a, decode, hash, n) && n < LIMIT
      requires CopyOf(a, data, hash, n, parts) && value == Get(a, OldAt(p, hash))
      requires Recorded() && !failed
      modifies `data, `history, `writes, `failed
      ensures old(history) <= history && Recorded() && ok == !failed
      ensures Undisturbed(start, decode) && (ok ==> CopyOf(a, data, hash, n, parts + {p}))
    {
      hide Ready, Same, Encode, Get, CopyOf, BigEndian, Recorded, SameElsewhere;
      ghost var before := data;
      CopyMoving(a, data, decode, hash, n, parts);
      CopyMore(a, data, hash, n, parts, p);
      ok := true;
      if |value| != 0 {
        if Ready(start, decode) {
          ghost var b := PutPart(data, decode, p, hash, n);
          SameTrans(start, before, b, decode);
        }
        PutElsewhere(start, data, At(p, n, hash), value);
        ok := Put(Encode(At(p, n, hash)), value);
      }
    }

    /** Copies the old entries of one block. */
    method UpgradeBlockData(hash: Bytes, decode: Decoder, ghost start: Db) returns (ok: bool)
      requires |hash| == 32 && Undisturbed(start, decode) && BoundedAt(data, decode, hash)
      requires Recorded() && !failed
      modifies `data, `history, `writes, `failed
      ensures old(history) <= history && Recorded() && ok == (!failed && Decodable(old(data), decode, hash))
      ensures Undisturbed(start, decode)
      ensures ok ==>
                var header := Get(old(data), OldAt(Head, hash));
                if header == [] then data == old(data)
                else decode(header).Some? && CopyOf(old(data), data, hash, decode(header).value, ALL)
    {
      hide Ready, Same, Encode, Get, CopyOf, BigEndian, Recorded, SameElsewhere;
      var header := Get(data, OldAt(Head, hash));
      if |header| == 0 {
        return true;
      }
      if decode(header).None? {
        return false;
      }
      var n := decode(header).value;
      ghost var a := data;
      var body, td := Get(data, OldAt(Body, hash)), Get(data, OldAt(Difficulty, hash));
      var receipts := Get(data, OldAt(Receipts, hash));
      if Ready(start, decode) {
        ghost var b := PutBlockNumber(data, decode, hash, n);
        SameTrans(start, a, b, decode);
      }
      CopyNumber(a, hash, n);
      assert {} + {Head} == {Head} && {Head} + {Difficulty} == {Head, Difficulty};
      assert {Head, Difficulty} + {Body} == {Head, Difficulty, Body} && {Head, Difficulty, Body} + {Receipts} == ALL;
      PutElsewhere(start, data, NumberOf(hash), BigEndian(n, 8));
      ok := Put(Encode(NumberOf(hash)), BigEndian(n, 8));
      if ok {
        ok := CopyPart(Head, hash, n, header, a, {}, start, decode);
      }
      if ok {
        ok := CopyPart(Difficulty, hash, n, td, a, {Head}, start, decode);
      }
      if ok {
        ok := CopyPart(Body, hash, n, body, a, {Head, Difficulty}, start, decode);
      }
      if ok {
        ok := CopyPart(Receipts, hash, n, receipts, a, {Head, Difficulty, Body}, start, decode);
      }
    }

    method DeleteOldEntry(raw: Bytes, hash: Bytes, ghost start: Db, ghost decode: Decoder) returns (ok: bool)
      requires |hash| == 32 && Undisturbed(start, decode) && Expendable(data, decode, hash) && BoundedAt(data, decode, hash)
      requires OLD_BLOCK + hash <= raw || raw == Encode(OldAt(Receipts, hash))
      requires Recorded() && !failed
      modifies `data, `history, `writes, `failed
      ensures old(history) <= history && Recorded() && ok == !failed
      ensures Undisturbed(start, decode) && Expendable(data, decode, hash) && BoundedAt(data, decode, hash)
      ensures ok ==> data == old(data) - {raw}
    {
      hide Ready, Same, Encode, Get, Expendable, BoundedAt, Erased, Frame, Recorded, SameElsewhere;
      ghost var before := data;
      if Ready(start, decode) {
        ghost var b := DeleteOld(data, decode, hash, raw);
        SameTrans(start, before, b, decode);
      }
      OldEntryKnown(hash, raw);
      DeleteElsewhere(start, data, raw);
      ok := Delete(raw);
      if ok {
        DeleteFrame(before, hash, raw);
        ErasedExpendable(before, data, decode, hash);
      }
    }

    method DeleteOldEntries(keys: set<Bytes>, hash: Bytes, ghost start: Db, ghost decode: Decoder) returns (ok: bool)
      requires |hash| == 32 && Undisturbed(start, decode) && Expendable(data, decode, hash) && BoundedAt(data, decode, hash)
      requires forall raw <- keys :: OLD_BLOCK + hash <= raw
      requires Recorded() && !failed
      modifies `data, `history, `writes, `failed
      ensures old(history) <= history && Recorded() && ok == !failed
      ensures Undisturbed(start, decode) && Expendable(data, decode, hash) && BoundedAt(data, decode, hash)
      ensures ok ==> data == old(data) - keys
    {
      hide Undisturbed, Expendable, BoundedAt, Encode, Recorded;
      var left := keys;
      ok := true;
      while left != {}
        invariant old(history) <= history && Recorded() && !failed
        invariant ok && left <= keys && data == old(data) - (keys - left)
        invariant Undisturbed(start, decode) && Expendable(data, decode, hash) && BoundedAt(data, decode, hash)
        decreases |left|
      {
        var raw :| raw in left;
          ok := DeleteOldEntry(raw, hash, start, decode);
        if !ok {
          return;
        }
        left := left - {raw};
      }
    }

    method UpgradeBlock(hash: Bytes, keys: set<Bytes>, decode: Decoder, ghost start: Db) returns (ok: bool)
      requires |hash| == 32 && Undisturbed(start, decode) && BoundedAt(data, decode, hash)
      requires forall raw <- keys :: OLD_BLOCK + hash <= raw
      requires forall p :: p != Receipts && Get(data, OldAt(p, hash)) != [] ==> Encode(OldAt(p, hash)) in keys
      requires Recorded() && !failed
      modifies `data, `history, `writes, `failed
      ensures old(history) <= history && Recorded() && ok == (!failed && Decodable(old(data), decode, hash))
      ensures Undisturbed(start, decode) && (ok ==> BlockConverted(old(data), data, decode, hash))
    {
      hide Encode, Get, Undisturbed, BlockConverted, CopyOf, BigEndian, Number, Recorded, Decodable;
      ghost var a := data;
      ok := UpgradeBlockData(hash, decode, start);
      if !ok {
        return;
      }
      ghost var b := data;
      if Get(a, OldAt(Head, hash)) != [] {
        ghost var n := decode(Get(a, OldAt(Head, hash))).value;
        CopyExpendable(a, b, decode, hash, n);
        CopyMoving(a, b, decode, hash, n, ALL);
        CopyBounded(a, b, decode, hash, n);
      }
      EraseCopied(a, b, decode, hash, keys);
      hide Expendable, BoundedAt;
      ok := DeleteOldEntries(keys, hash, start, decode);
      if ok {
        ok := DeleteOldEntry(Encode(OldAt(Receipts, hash)), hash, start, decode);
      }
    }

    /** The second pass: headers, bodies, difficulties and receipts of blocks. */
    method UpgradeBlocks(decode: Decoder, ghost start: Db) returns (ok: bool, stopped: bool)
      requires Undisturbed(start, decode) && forall hash | |hash| == 32 :: BoundedAt(data, decode, hash)
      requires Recorded() && !failed && !asked
      modifies `data, `history, `writes, `failed, `polls, `asked
      ensures old(history) <= history && Recorded() && stopped == asked && (ok || !stopped)
      ensures (ok ==> !failed) && (!ok ==> failed || !AllDecodable(old(data), decode))
      ensures Undisturbed(start, decode)
      ensures ok && !stopped ==> BlocksConverted(old(data), data, decode, {})
    {
      hide Undisturbed, Encode, BlocksConverted, WholeBlocks, BoundedAt, BlockConverted, Recorded, Decodable;
      var keys := set raw <- data.Keys | OLD_BLOCK <= raw;
      BlocksStart(data, decode, keys);
      ok, stopped := true, false;
      while keys != {}
        invariant old(history) <= history && Recorded() && !failed && !asked
        invariant ok && !stopped && Undisturbed(start, decode)
        invariant forall raw <- keys :: OLD_BLOCK <= raw
        invariant BlocksConverted(old(data), data, decode, keys) && WholeBlocks(old(data), keys)
        decreases |keys|
      {
        var raw :| raw in keys;
        if 38 <= |raw| {
          var hash := raw[6..38];
          assert OLD_BLOCK + hash == raw[..38];
          ghost var before := data;
          WaitingBlock(old(data), data, decode, keys, hash);
          ok := UpgradeBlock(hash, Group(keys, hash), decode, start);
          if !ok {
            return;
          }
          ConvertBlock(old(data), before, data, decode, keys, hash);
          WholeGroup(old(data), keys, hash);
          assert raw in Group(keys, hash);
          keys := keys - Group(keys, hash);
        } else {
          ShortKey(old(data), data, decode, keys, raw);
          keys := keys - {raw};
        }
        stopped := Poll();
        if stopped {
          return;
        }
      }
    }

    method DeleteReceipts(raw: Bytes, ghost start: Db, ghost decode: Decoder) returns (ok: bool)
      requires Undisturbed(start, decode) && NoOldHeaders(data) && OLD_RECEIPTS <= raw
      requires Recorded() && !failed
      modifies `data, `history, `writes, `failed
      ensures old(history) <= history && Recorded() && ok == !failed
      ensures Undisturbed(start, decode) && NoOldHeaders(data) && data == if ok then old(data) - {raw} else old(data)
    {
      hide Ready, Same, Encode, Recorded, SameElsewhere;
      if Ready(start, decode) {
        ghost var b := DeleteOrphan(data, decode, raw);
        SameTrans(start, data, b, decode);
      }
      DeleteElsewhere(start, data, raw);
      ok := Delete(raw);
    }

    /** The third pass: receipts that belong to no block. */
    method UpgradeOrphanedReceipts(ghost start: Db, ghost decode: Decoder) returns (ok: bool, stopped: bool)
      requires Undisturbed(start, decode) && NoOldHeaders(data)
      requires Recorded() && !failed && !asked
      modifies `data, `history, `writes, `failed, `polls, `asked
      ensures old(history) <= history && Recorded() && ok == !failed
      ensures stopped == asked && (ok || !stopped)
      ensures Undisturbed(start, decode)
      ensures ok && !stopped ==> data == old(data) - set raw <- old(data).Keys | OLD_RECEIPTS <= raw
    {
      hide Undisturbed, NoOldHeaders, Recorded;
      var all := set raw <- data.Keys | OLD_RECEIPTS <= raw;
      var keys := all;
      ok, stopped := true, false;
      while keys != {}
        invariant old(history) <= history && Recorded() && !failed && !asked
        invariant ok && !stopped && Undisturbed(start, decode) && NoOldHeaders(data)
        invariant keys <= all && data == old(data) - (all - keys)
        decreases |keys|
      {
        var raw :| raw in keys;
          ok := DeleteReceipts(raw, start, decode);
        if !ok {
          return;
        }
        keys := keys - {raw};
        stopped := Poll();
        if stopped {
          return;
        }
      }
    }

    method SetFlag(ghost start: Db, ghost decode: Decoder) returns (ok: bool)
      requires Undisturbed(start, decode)
      requires Recorded()
      modifies `data, `history, `writes, `failed
      ensures old(history) <= history && Recorded() && failed == (old(failed) || !ok)
      ensures writes == old(writes) + 1 && ok == !failing(old(writes))
      ensures Undisturbed(start, decode) && data == if ok then old(data)[FLAG := [42]] else old(data)
    {
      hide Ready, Same, Encode, Unread;
      if Ready(start, decode) {
        FlagUnread();
        assert FLAG[0] != OLD_NUMBER[0];
        UnreadStep(data, data[FLAG := [42]], decode, FLAG);
        SameTrans(start, data, data[FLAG := [42]], decode);
      }
      assert SameElsewhere(start, data[FLAG := [42]]);
      ok := Put(FLAG, [42]);
    }

    /** The whole migration.  It stops only if asked to and fails only at a write or at an old header that does not decode;
        otherwise everything is converted and, unless that write fails, the database is flagged. */
    method UpgradeSequentialKeys(decode: Decoder) returns (outcome: Outcome)
      requires Bounded(data, decode)
      modifies this
      ensures Undisturbed(old(data), decode) && history != [] && history[0] == old(data)
      ensures outcome == Finished ==>
                Converted(old(data), data, decode) && (Same(old(data), data, decode) <==> Agrees(old(data), decode))
      ensures outcome == AlreadyConverted <==> IsFlagged(old(data))
      ensures outcome == Empty <==> !IsFlagged(old(data)) && IsEmpty(old(data))
      ensures outcome == AlreadyConverted ==> data == old(data)
      ensures outcome == Empty ==> data == if failing(old(writes)) then old(data) else old(data)[FLAG := [42]]
      ensures Accounted(outcome, failing, old(writes), writes, stops, old(polls), polls, AllDecodable(old(data), decode))
      ensures outcome == Finished && !failing(writes - 1) ==> IsFlagged(data)
      ensures (forall k: nat :: !failing(k) && !stops(k)) && AllDecodable(old(data), decode) ==>
                IsFlagged(old(data)) || IsEmpty(old(data)) || (outcome == Finished && IsFlagged(data))
    {
      hide Same, Converted, Agrees, AllDecodable, Undisturbed, Bounded, Accounted;
      ghost var start := data;
      history := [data];
      Begin(start, decode);
      AccountedAtOnce(failing, writes, stops, polls, AllDecodable(start, decode));
      if IsFlagged(data) {
        return AlreadyConverted;
      }
      if LAST_HEADER !in data || |data[LAST_HEADER]| == 0 {
        var ok := SetFlag(start, decode);
        return Empty;
      }
      outcome := Migrate(decode, start);
      AccountedInPeace(outcome, failing, old(writes), writes, stops, old(polls), polls, AllDecodable(start, decode));
    }

    /** Starts the record of a migration. */
    ghost method Begin(start: Db, decode: Decoder)
      requires data == start && history == [start]
      modifies `firstWrite, `firstPoll, `failed, `asked
      ensures Undisturbed(start, decode) && Recorded() && !failed && !asked && firstWrite == writes && firstPoll == polls
    {
      hide Ready, Same;
      SameRefl(start, decode);
      SparedNext(failing, writes, writes);
      SparedNext(stops, polls, polls);
      firstWrite, firstPoll, failed, asked := writes, polls, false, false;
    }

    /** Converts a database that is in use and not converted, and flags it. */
    method Migrate(decode: Decoder, ghost start: Db) returns (outcome: Outcome)
      requires Undisturbed(start, decode) && Bounded(start, decode) && data == start
      requires Recorded() && !failed && !asked && firstWrite == writes && firstPoll == polls
      modifies `data, `history, `writes, `failed, `polls, `asked
      ensures old(history) <= history && Undisturbed(start, decode) && outcome in {Finished, Stopped, Failed}
      ensures outcome == Finished ==>
                Converted(start, data, decode) && (Same(start, data, decode) <==> Agrees(start, decode))
      ensures Accounted(outcome, failing, old(writes), writes, stops, old(polls), polls, AllDecodable(start, decode))
      ensures outcome == Finished && !failing(writes - 1) ==> IsFlagged(data)
    {
      hide Same, Converted, Agrees, AllDecodable, Undisturbed, Bounded, Spared;
      var ok, stopped := RunPasses(decode, start);
      if ok && !stopped {
        FlagConverted(start, data, decode);
        ConvertedSameIff(start, data, decode);
        ConvertedSameIff(start, data[FLAG := [42]], decode);
        var _ := SetFlag(start, decode);
        return Finished;
      }
      return if ok then Stopped else Failed;
    }

    /** The three passes one after the other. */
    method RunPasses(decode: Decoder, ghost start: Db) returns (ok: bool, stopped: bool)
      requires Undisturbed(start, decode) && Bounded(start, decode) && data == start
      requires Recorded() && !failed && !asked
      modifies `data, `history, `writes, `failed, `polls, `asked
      ensures old(history) <= history && Recorded() && stopped == asked && (ok || !stopped) && Undisturbed(start, decode)
      ensures (ok ==> !failed) && (!ok ==> failed || !AllDecodable(start, decode))
      ensures ok && !stopped ==> Converted(start, data, decode) && AllDecodable(start, decode)
    {
      hide Undisturbed, Encode, Bounded, Converted, NumbersConverted, BlocksConverted, BoundedAt, AllDecodable, Recorded;
      ok, stopped := UpgradeNumbers(start, decode);
      ghost var first := data;
      if ok && !stopped {
        NumbersBounded(start, first, decode);
        NumbersDecodable(start, first, decode);
        ok, stopped := UpgradeBlocks(decode, start);
      }
      ghost var second := data;
      if ok && !stopped {
        HeadersGone(first, second, decode);
        ok, stopped := UpgradeOrphanedReceipts(start, decode);
      }
      if ok && !stopped {
        PassesConvert(start, first, second, data, decode);
        ConvertedDecodable(start, data, decode);
      }
    }
  }

  /** A node that ran between two attempts may have rewritten a canonical hash in the new layout.  The migration runs
      on its database and has replaced that hash by the stale one once finished, which it does unless stopped or a
      write fails. */
  method StaleHashReturns(decode: Decoder, n: nat, stale: Bytes, newer: Bytes, failing: nat -> bool, stops: nat -> bool)
    returns (db: ChainDatabase, outcome: Outcome)
    requires n < LIMIT && |stale| == 32 && |newer| == 32
    ensures CanonicalHash(StaleDatabase(n, stale, newer), n) == newer
    ensures outcome in {Finished, Stopped, Failed}
    ensures (forall k: nat :: !failing(k) && !stops(k)) ==> outcome == Finished
    ensures outcome == Finished ==> CanonicalHash(db.data, n) == stale
  {
    hide StaleDatabase, Bounded, Converted, CanonicalHash, AllDecodable;
    db := new ChainDatabase(StaleDatabase(n, stale, newer), failing, stops);
    StaleDisagrees(decode, n, stale, newer, db.data);
    StaleDecodable(decode, n, stale, newer);
    outcome := db.UpgradeSequentialKeys(decode);
  }
}
