/** Requests from end to end: the client library of src/serverapi.c packs a request, the server
    serves it, and the client reads the answer. */
module Clients {
  import opened Words
  import opened Paths
  import opened Streams
  import opened Store
  import opened Accounts
  import opened Eviction
  import opened Runs
  import opened Servers

  // ------------------------------------------------------------------------- the request word

  /** The word that sapi_sendop packs without flags arrives as the request that was meant, whatever
      the path and the data: the length in the word does not disturb the operation. */
  lemma RequestsArrive(client: nat, len: nat, m: Message, order: seq<Path>, busy: set<Path>)
    ensures m.word == MessageLen(0, SAPI_OPENFILE, len) ==> RequestOf(client, m, order, busy) == Open(client, m.path, false, false)
    ensures m.word == MessageLen(0, SAPI_CLOSEFILE, len) ==> RequestOf(client, m, order, busy) == Close(client, m.path)
    ensures m.word == MessageLen(0, SAPI_READFILE, len) ==> RequestOf(client, m, order, busy) == Read(client, m.path)
    ensures m.word == MessageLen(0, SAPI_REMOVEFILE, len) ==> RequestOf(client, m, order, busy) == Remove(client, m.path)
    ensures m.word == MessageLen(0, SAPI_WRITEFILE, len) ==>
              RequestOf(client, m, order, busy) == Write(client, m.path, false, m.data, busy, order, m.sendBack)
    ensures m.word == MessageLen(0, SAPI_APPENDFILE, len) ==>
              RequestOf(client, m, order, busy) == Write(client, m.path, true, m.data, busy, order, m.sendBack)
    ensures m.word == MessageLen(0, SAPI_READNFILES, len) ==>
              RequestOf(client, m, order, busy) == ReadN(client, len % 0x100_0000, order, busy)
    ensures m.word == MessageLen(0, SAPI_LOCKFILE, len) || m.word == MessageLen(0, SAPI_UNLOCKFILE, len) ==>
              RequestOf(client, m, order, busy) == Other(client, true)
  {
    hide MessageLen, MessageOp, MessageSize, MessageFlags, HasFlag;
    forall op: Byte | op % 4 == 0 && m.word == MessageLen(0, op, len)
      ensures MessageOp(m.word) == op && MessageSize(m.word) == len % 0x100_0000
    {
      RequestWordRoundTrip(0, op, len);
      MessageFields(0, op, len);
    }
    if m.word == MessageLen(0, SAPI_OPENFILE, len) {
      MessageFields(0, SAPI_OPENFILE, len);
      FlagBits(m.word);
    }
  }

  /** Any other operation is unknown to the server: one that is no multiple of four between OPENFILE and
      REMOVEFILE. */
  lemma OthersAreUnknown(client: nat, op: Byte, len: nat, m: Message, order: seq<Path>, busy: set<Path>)
    requires m.word == MessageLen(0, op, len) && op % 4 == 0
    ensures RequestOf(client, m, order, busy) == Other(client, false) <==> op < 0x0C || op > 0x2C
  {
    hide MessageLen, MessageOp, MessageSize, MessageFlags, HasFlag, Within;
    RequestWordRoundTrip(0, op, len);
    assert Within(0, op / 4) by {
      WithinUnfold(0, op / 4);
    }
    assert 0x0C <= op <= 0x2C ==> op / 4 in {3, 4, 5, 6, 7, 8, 9, 10, 11};
  }

  lemma {:induction false} WithinThree(a: nat)
    ensures Within(a, 3) <==> a < 4
  {
    hide Within;
    Halves(a);
    WithinUnfold(a, 3);
    WithinUnfold(a / 2, 1);
    WithinZero(a / 2 / 2);
  }

  lemma WithinUnfold(a: nat, b: nat)
    ensures Within(a, b) <==> a == 0 || (a % 2 <= b % 2 && Within(a / 2, b / 2))
  {
  }

  lemma {:induction false} WithinZero(a: nat)
    ensures Within(a, 0) <==> a == 0
  {
    if a > 0 {
      WithinZero(a / 2);
    }
  }

  /** openFile hands its flags on, cut to a byte. The request arrives as the opening that was meant
      exactly when that byte is below 0x10. */
  lemma OpenArrives(client: nat, flags: int, len: nat, m: Message, order: seq<Path>, busy: set<Path>)
    requires m.word == MessageLen(flags % 0x100, SAPI_OPENFILE, len)
    ensures var byte := flags % 0x100;
            RequestOf(client, m, order, busy) == Open(client, m.path, HasFlag(byte, O_CREATE), HasFlag(byte, O_LOCK))
            <==> byte < 0x10
  {
    hide MessageLen, MessageOp, MessageSize, HasFlag, Within;
    var byte := flags % 0x100;
    RequestWordRoundTrip(byte, SAPI_OPENFILE, len);
    WithinThree(byte / 4);
    FlagBits(m.word);
    FlagBits(byte);
  }

  // Beyond that it is another request: with the flag 0x10 it asks for an append.
  lemma OpenBecomesAppend(client: nat, len: nat, m: Message, order: seq<Path>, busy: set<Path>)
    requires m.word == MessageLen(0x10, SAPI_OPENFILE, len)
    ensures RequestOf(client, m, order, busy) == Write(client, m.path, true, m.data, busy, order, m.sendBack)
  {
    MessageFields(0x10, SAPI_OPENFILE, len);
    assert Or(4, 3) == 7;
  }

  // ------------------------------------------------------------------------------- readNFiles

  // The files that can be sent, in the order of the table.
  function Lockable(files: Files, order: seq<Path>, busy: set<Path>): (r: seq<Path>)
    ensures forall p | p in r :: p in files && files[p].data != []
  {
    if order == [] then []
    else if order[0] in files && order[0] !in busy && files[order[0]].data != [] then
      [order[0]] + Lockable(files, order[1..], busy)
    else Lockable(files, order[1..], busy)
  }

  function Min(a: nat, b: nat): nat { if a < b then a else b }

  // The first k of them, or all.
  function FirstLockable(files: Files, order: seq<Path>, busy: set<Path>, k: nat): (r: seq<Path>)
    ensures forall p | p in r :: p in files && files[p].data != []
  {
    Lockable(files, order, busy)[..Min(k, |Lockable(files, order, busy)|)]
  }

  lemma {:induction false} PickedPrefix(files: Files, order: seq<Path>, n: nat, busy: set<Path>)
    ensures Picked(files, order, n, busy) <= Lockable(files, order, busy)
    ensures |Picked(files, order, n, busy)| == Min(n, |Lockable(files, order, busy)|)
    decreases |order|
  {
    if n == 0 || order == [] {
    } else if order[0] in files && order[0] !in busy && files[order[0]].data != [] {
      PickedPrefix(files, order[1..], n - 1, busy);
    } else {
      PickedPrefix(files, order[1..], n, busy);
    }
  }

  // The files that server_readNFiles picks are the first n of those that it can send.
  lemma PickedIsPrefix(files: Files, order: seq<Path>, n: nat, busy: set<Path>)
    ensures Picked(files, order, n, busy) == FirstLockable(files, order, busy, n)
  {
    PickedPrefix(files, order, n, busy);
  }

  lemma {:induction false} LockableOnce(files: Files, order: seq<Path>, busy: set<Path>)
    requires Distinct(order)
    ensures Distinct(Lockable(files, order, busy))
    ensures forall p | p in Lockable(files, order, busy) :: p in order && p !in busy
  {
    if order == [] {
    } else {
      DistinctTail(order);
      LockableOnce(files, order[1..], busy);
    }
  }

  // Lengths are sizes.
  ghost predicate Presentable(files: Files) {
    forall p | p in files :: |p| < SIZE_MOD && |files[p].data| < SIZE_MOD
  }

  lemma ParcelPaths(files: Files, paths: seq<Path>)
    requires forall p | p in paths :: p in files
    ensures (forall f | f in Parcels(files, paths) :: f.path != []) <==> [] !in paths
  {
    var parcels := Parcels(files, paths);
    forall i | 0 <= i < |paths| ensures parcels[i].path == paths[i] && parcels[i] in parcels {}
    if f :| f in parcels && f.path == [] {
      var i :| 0 <= i < |parcels| && parcels[i] == f;
      assert paths[i] == [];
    }
  }

  // What the client makes of the answer of server_readNFiles to a request for k files.
  lemma AnswerToReadN(s: Storage, client: nat, k: nat, order: seq<Path>, busy: set<Path>, rest: seq<Byte>)
    requires Presentable(s.files)
    ensures var d := DecodeReadN(DoReadN(s, client, k, order, busy).sent + rest);
            var sent := FirstLockable(s.files, order, busy, k);
            && d.how == Broken && |d.files| <= |sent|
            && (d == Decoded(Parcels(s.files, sent), rest, Broken) <==> [] !in sent)
  {
    hide DecodeReadN, EncodeSize, Lockable;
    PickedIsPrefix(s.files, order, k, busy);
    var sent := FirstLockable(s.files, order, busy, k);
    var parcels := Parcels(s.files, sent);
    assert ReadFrames(parcels) + EncodeSize(0) + rest == ReadStream(parcels, rest);
    ReadStreamDecodes(parcels, rest);
    ReadRoundTrip(parcels, rest);
    ParcelPaths(s.files, sent);
  }

  /** readNFiles from end to end. The client recovers, each once and in the order of the table, the
      first files that the server can lock and that have data, as many as it asked for or all of
      them, exactly when the 24 bits of the number that arrive are enough and no path is empty. In
      every case it takes the end of what it reads for an error, and never returns a number. */
  lemma ReadNFilesEndToEnd(s: Storage, client: nat, n: nat, m: Message, order: seq<Path>, busy: set<Path>, rest: seq<Byte>)
    requires client != 0 && Presentable(s.files) && Distinct(order)
    requires m.word == MessageLen(0, SAPI_READNFILES, n)
    ensures var d := DecodeReadN(Step(s, RequestOf(client, m, order, busy)).sent + rest);
            var wanted := FirstLockable(s.files, order, busy, n);
            && Distinct(wanted) && d.how == Broken
            && (d == Decoded(Parcels(s.files, wanted), rest, Broken) <==>
                (n < 0x100_0000 || |Lockable(s.files, order, busy)| <= n % 0x100_0000) && [] !in wanted)
  {
    hide DecodeReadN, EncodeSize, Lockable, MessageLen, DoReadN, Presentable;
    RequestsArrive(client, n, m, order, busy);
    LockableOnce(s.files, order, busy);
    AnswerToReadN(s, client, n % 0x100_0000, order, busy, rest);
    assert |Parcels(s.files, FirstLockable(s.files, order, busy, n))| == Min(n, |Lockable(s.files, order, busy)|);
  }

  // ------------------------------------------------------------------------------ appendToFile

  // What appendToFile makes of the server's answer: its verdict, the files it saved, and what it
  // left unread; or it waits for more.
  datatype Verdict = Verdict(ok: bool, saved: seq<Parcel>, rest: seq<Byte>) | Waiting

  // The last word of the answer.
  function LastWord(saved: seq<Parcel>, s: seq<Byte>): Verdict {
    if |s| < WORD_BYTES then Waiting
    else Verdict(Decode(s[..WORD_BYTES]) == SAPI_SUCCESS, saved, s[WORD_BYTES..])
  }

  function AppendAnswer(s: seq<Byte>, save: bool): Verdict {
    if |s| < WORD_BYTES then Waiting
    else
      var m, s1 := Decode(s[..WORD_BYTES]), s[WORD_BYTES..];
      if m == SAPI_SUCCESS then LastWord([], s1)
      else if m != SAPI_EVICT then Verdict(false, [], s1)
      else if !save then LastWord([], s1)
      else
        var d := DecodeEvict(s1);
        match d.how
        case Ended(_) => LastWord(d.files, d.rest)
        case Broken => Verdict(false, d.files, d.rest)
        case Blocked => Waiting
  }

  // appendToFile, from the moment its request is sent; sapi_evict does the loop.
  method AppendToFile(answer: seq<Byte>, save: bool) returns (v: Verdict)
    ensures v == AppendAnswer(answer, save)
  {
    if |answer| < WORD_BYTES {
      return Waiting;
    }
    var m, rest, saved := Decode(answer[..WORD_BYTES]), answer[WORD_BYTES..], [];
    if m != SAPI_SUCCESS {
      if m != SAPI_EVICT {
        return Verdict(false, [], rest);
      }
      if save {
        var d := SapiEvict(rest);
        if d.how == Blocked {
          return Waiting;
        }
        if d.how == Broken {
          return Verdict(false, d.files, d.rest);
        }
        saved, rest := d.files, d.rest;
      }
    }
    if |rest| < WORD_BYTES {
      return Waiting;
    }
    return Verdict(Decode(rest[..WORD_BYTES]) == SAPI_SUCCESS, saved, rest[WORD_BYTES..]);
  }

  lemma LastWordOf(saved: seq<Parcel>, m: nat, rest: seq<Byte>)
    requires m < UINT_MOD
    ensures LastWord(saved, EncodeWord(m) + rest) == Verdict(m == SAPI_SUCCESS, saved, rest)
  {
    DecodeAnnounced(rest, m);
  }

  function Status(ok: bool): nat { if ok then SAPI_SUCCESS else SAPI_FAILURE }

  lemma AnswerWithoutEviction(ok: bool, rest: seq<Byte>, save: bool)
    ensures AppendAnswer(EncodeWord(SAPI_SUCCESS) + EncodeWord(Status(ok)) + rest, save) == Verdict(ok, [], rest)
  {
    assert EncodeWord(SAPI_SUCCESS) + EncodeWord(Status(ok)) + rest == EncodeWord(SAPI_SUCCESS) + (EncodeWord(Status(ok)) + rest);
    DecodeAnnounced(EncodeWord(Status(ok)) + rest, SAPI_SUCCESS);
    LastWordOf([], Status(ok), rest);
  }

  // An announced eviction, as the client reads it when it does not save the files, and when it does.
  lemma AnswerUnsaved(ok: bool, after: seq<Byte>)
    ensures AppendAnswer(EncodeWord(SAPI_EVICT) + EvictStream([], Status(ok), after), false) == Verdict(ok, [], after)
  {
    hide EncodeWord, Decode;
    var tail := EncodeWord(Status(ok)) + after;
    assert EvictStream([], Status(ok), after) == tail;
    DecodeAnnounced(tail, SAPI_EVICT);
    LastWordOf([], Status(ok), after);
  }

  lemma AnswerSaved(files: seq<Parcel>, ok: bool, rest: seq<Byte>)
    requires forall f | f in files :: FitsInSize(f)
    ensures var s := EncodeWord(SAPI_EVICT) + EvictStream(files, Status(ok), EncodeWord(Status(ok)) + rest);
            AppendAnswer(s, true) == Verdict(ok, files, rest) <==> forall f | f in files :: Sendable(f)
  {
    hide EncodeWord, Decode, EvictStream, DecodeEvict, FitsInSize;
    var after := EncodeWord(Status(ok)) + rest;
    var tail := EvictStream(files, Status(ok), after);
    DecodeAnnounced(tail, SAPI_EVICT);
    LastWordOf(files, Status(ok), rest);
    EvictRoundTrip(files, Status(ok), after);
    if DecodeEvict(tail).files == files {
      RecoveredIsSendable(files, Status(ok), after);
    }
  }

  lemma AnswerRefused(rest: seq<Byte>, save: bool)
    ensures AppendAnswer(EncodeWord(SAPI_FAILURE) + rest, save) == Verdict(false, [], rest)
  {
    DecodeAnnounced(rest, SAPI_FAILURE);
  }

  /** As long as something of an answer is missing, appendToFile waits, whether it saves files or not. */
  lemma CutAnswerWaits(files: seq<Parcel>, ok: bool, k: nat)
    requires forall f | f in files :: FitsInSize(f) && Sendable(f)
    ensures var a := EncodeWord(SAPI_EVICT) + EvictStream(files, Status(ok), EncodeWord(Status(ok)));
            k < |a| ==> AppendAnswer(a[..k], true) == Waiting
    ensures var a := EncodeWord(SAPI_SUCCESS) + EncodeWord(Status(ok)); k < |a| ==> AppendAnswer(a[..k], false) == Waiting
  {
    hide EncodeWord, Decode, EvictStream, DecodeEvict, FitsInSize, Sendable;
    var word := EncodeWord(Status(ok));
    if WORD_BYTES <= k {
      var j := k - WORD_BYTES;
      if j < |EvictStream(files, Status(ok), word)| {
        var part := EvictStream(files, Status(ok), word)[..j];
        assert (EncodeWord(SAPI_EVICT) + EvictStream(files, Status(ok), word))[..k] == EncodeWord(SAPI_EVICT) + part;
        DecodeAnnounced(part, SAPI_EVICT);
        CutStreamWaits(files, ok, j);
      }
      if j < WORD_BYTES {
        assert (EncodeWord(SAPI_SUCCESS) + word)[..k] == EncodeWord(SAPI_SUCCESS) + word[..j];
        DecodeAnnounced(word[..j], SAPI_SUCCESS);
      }
    }
  }

  lemma CutStreamWaits(files: seq<Parcel>, ok: bool, j: nat)
    requires forall f | f in files :: FitsInSize(f) && Sendable(f)
    requires j < |EvictStream(files, Status(ok), EncodeWord(Status(ok)))|
    ensures var d := DecodeEvict(EvictStream(files, Status(ok), EncodeWord(Status(ok)))[..j]);
            d.how == Blocked || (d.how.Ended? && |d.rest| < WORD_BYTES)
  {
    hide EncodeWord, Decode, EvictStream, DecodeEvict, FitsInSize, Sendable;
    var word, whole := EncodeWord(Status(ok)), EvictStream(files, Status(ok), []);
    StreamThen(files, Status(ok), word);
    if j < |whole| {
      assert (whole + word)[..j] == whole[..j];
      CutEvictStreamBlocks(files, Status(ok), j);
    } else {
      var part := word[..j - |whole|];
      StreamThen(files, Status(ok), part);
      assert (whole + word)[..j] == whole + part;
      EvictRoundTrip(files, Status(ok), part);
    }
  }

  lemma StreamThen(files: seq<Parcel>, status: nat, rest: seq<Byte>)
    ensures EvictStream(files, status, rest) == EvictStream(files, status, []) + rest
  {
    hide EncodeWord, EvictFrames;
  }

  /** An evicted file with an empty path breaks off the answer: the files before it are saved, and the
      append is reported as failed, although the server goes on. */
  lemma NamelessFileBreaks(before: seq<Parcel>, f: Parcel, after: seq<Byte>)
    requires (forall x | x in before :: FitsInSize(x) && Sendable(x)) && FitsInSize(f) && f.path == []
    ensures AppendAnswer(EncodeWord(SAPI_EVICT) + (EvictFrames(before) + (EncodeWord(SAPI_EVICT) + (SendParcel(f) + after))), true)
            == Verdict(false, before, SendData(f.data) + after)
  {
    hide EncodeWord, Decode, EvictFrames, SendParcel, SendData, FitsInSize, Sendable;
    var tail := EncodeWord(SAPI_EVICT) + (SendParcel(f) + after);
    DecodeAnnounced(EvictFrames(before) + tail, SAPI_EVICT);
    DecodeAnnounced(SendParcel(f) + after, SAPI_EVICT);
    SendablePrefix(before, tail);
    TakeWithoutPath(f, after);
  }

  ghost function Saved(s: Storage, client: nat, path: Path, data: seq<Byte>, busy: set<Path>, plan: seq<Path>, save: bool): seq<Parcel> {
    if save then Parcels(s.files, Casualties(s, client, path, data, busy, plan)) else []
  }

  // The answer to a write or an append of the client that holds the file.
  ghost function AnswerTo(s: Storage, client: nat, path: Path, data: seq<Byte>, busy: set<Path>, plan: seq<Path>,
                          save: bool, ok: bool): seq<Byte>
  {
    if BytesAvailable(s) >= |data| then EncodeWord(SAPI_SUCCESS) + EncodeWord(Status(ok))
    else if Bytes(s.files) < |data| - BytesAvailable(s) then EncodeWord(SAPI_FAILURE)
    else
      EncodeWord(SAPI_EVICT) + EvictStream(Saved(s, client, path, data, busy, plan, save), Status(ok), EncodeWord(Status(ok)))
  }

  lemma EvictSends(s: Storage, client: nat, b: set<Path>, plan: seq<Path>, need: nat, save: bool, after: seq<Byte>)
    requires Bytes(s.files) >= need
    ensures var e := Evict(s, client, b, plan, need, save);
            var v := Evicted(s.files, client, b, plan, need);
            && (forall p | p in v :: p in s.files)
            && e.sent + after == EncodeWord(SAPI_EVICT) + EvictStream(if save then Parcels(s.files, v) else [], Status(e.ok), after)
  {
    var e, v := Evict(s, client, b, plan, need, save), Evicted(s.files, client, b, plan, need);
    assert EvictFrames([]) == [];
    hide EncodeWord, Victims, StillNeeded, EvictFrames, Bytes, RemoveAll, Eligible;
    var frames := EvictFrames(if save then Parcels(s.files, v) else []);
    assert e.sent == EncodeWord(SAPI_EVICT) + frames + EncodeWord(Status(e.ok));
    Regroup(EncodeWord(SAPI_EVICT), frames, EncodeWord(Status(e.ok)), after);
  }

  // Once the eviction has made the space, the write succeeds.
  lemma GrantedIffEvicted(s: Storage, client: nat, path: Path, append: bool, data: seq<Byte>,
                          busy: set<Path>, plan: seq<Path>, save: bool)
    requires Inv(s) && Holds(s, client, path) && Enumerates(s.files, plan) && BytesAvailable(s) < |data|
    ensures var need := |data| - BytesAvailable(s);
            && WriteHeld(s, client, path, append, data, busy, plan, save).ok == Evict(s, client, busy + {path}, plan, need, save).ok
            && (Bytes(s.files) < need ==> !WriteHeld(s, client, path, append, data, busy, plan, save).ok)
  {
    hide WriteHeld, Evicted, EligibleOnes, ShortestCover, Sizes, Bytes, Inv, Enumerates, Victims, StillNeeded;
    HeldSucceedsIff(s, client, path, append, data, busy, plan, save);
    EvictSucceedsIff(s, client, busy + {path}, plan, |data| - BytesAvailable(s), save);
  }

  lemma HeldSends(s: Storage, client: nat, path: Path, append: bool, data: seq<Byte>,
                          busy: set<Path>, plan: seq<Path>, save: bool)
    requires path in s.files
    ensures var o := WriteHeld(s, client, path, append, data, busy, plan, save);
            o.sent ==
            (if BytesAvailable(s) >= |data| then EncodeWord(SAPI_SUCCESS)
             else Evict(s, client, busy + {path}, plan, |data| - BytesAvailable(s), save).sent) + EncodeWord(Status(o.ok))
  {
    hide EncodeWord, Bytes, EvictFrames, Parcels, StillNeeded, WriteFile, WriteAccepted;
  }

  lemma AnswerIsSent(s: Storage, client: nat, path: Path, append: bool, data: seq<Byte>,
                          busy: set<Path>, plan: seq<Path>, save: bool)
    requires Inv(s) && Holds(s, client, path) && Enumerates(s.files, plan)
    ensures var o := WriteHeld(s, client, path, append, data, busy, plan, save);
            && o.sent == AnswerTo(s, client, path, data, busy, plan, save, o.ok)
            && (o.ok && BytesAvailable(s) < |data| ==> Bytes(s.files) >= |data| - BytesAvailable(s))
  {
    hide WriteHeld, FinishWrite, EncodeWord, EvictStream, Inv, Enumerates, Victims, StillNeeded, EvictFrames, RemoveAll;
    HeldSends(s, client, path, append, data, busy, plan, save);
    if BytesAvailable(s) < |data| {
      var need, ok := |data| - BytesAvailable(s), WriteHeld(s, client, path, append, data, busy, plan, save).ok;
      GrantedIffEvicted(s, client, path, append, data, busy, plan, save);
      if Bytes(s.files) >= need {
        EvictSends(s, client, busy + {path}, plan, need, save, EncodeWord(Status(ok)));
      }
    }
  }

  lemma EvictStreamRest(files: seq<Parcel>, ok: bool, rest: seq<Byte>)
    ensures EncodeWord(SAPI_EVICT) + EvictStream(files, Status(ok), EncodeWord(Status(ok))) + rest
         == EncodeWord(SAPI_EVICT) + EvictStream(files, Status(ok), EncodeWord(Status(ok)) + rest)
  {
  }

  // The parcels of an eviction are fit to travel exactly when none of the files is empty or nameless.
  lemma CasualtiesFit(files: Files, paths: seq<Path>)
    requires Presentable(files) && forall p | p in paths :: p in files
    ensures forall f | f in Parcels(files, paths) :: FitsInSize(f)
    ensures (forall f | f in Parcels(files, paths) :: Sendable(f)) <==> (forall p | p in paths :: p != [] && files[p].data != [])
  {
    var parcels := Parcels(files, paths);
    forall p | p in paths ensures Parcel(p, files[p].data) in parcels {
      var i :| 0 <= i < |paths| && paths[i] == p;
      assert parcels[i] == Parcel(p, files[p].data);
    }
    forall f | f in parcels ensures f.path in paths && f.data == files[f.path].data {
      var i :| 0 <= i < |parcels| && parcels[i] == f;
    }
  }

  // The answer leads the client neither astray nor out of step: no eviction is announced, or the
  // client wants the evicted files and none of them has an empty path or is empty.
  ghost predicate Plain(s: Storage, client: nat, path: Path, data: seq<Byte>, busy: set<Path>, plan: seq<Path>, save: bool) {
    || BytesAvailable(s) >= |data|
    || Bytes(s.files) < |data| - BytesAvailable(s)
    || (save && forall p | p in Casualties(s, client, path, data, busy, plan) :: p != [] && s.files[p].data != [])
  }

  lemma HeldAppendEndToEnd(s: Storage, client: nat, path: Path, data: seq<Byte>, busy: set<Path>, plan: seq<Path>,
                           save: bool, rest: seq<Byte>)
    requires Inv(s) && Holds(s, client, path) && data != [] && Enumerates(s.files, plan) && Presentable(s.files)
    ensures var o := WriteHeld(s, client, path, true, data, busy, plan, save);
            AppendAnswer(o.sent + rest, save) == Verdict(o.ok, Saved(s, client, path, data, busy, plan, save), rest)
            <==> Plain(s, client, path, data, busy, plan, save)
  {
    hide WriteHeld, EncodeWord, EvictStream, AppendAnswer, Inv, Enumerates, Bytes, Presentable;
    AnswerIsSent(s, client, path, true, data, busy, plan, save);
    var ok := WriteHeld(s, client, path, true, data, busy, plan, save).ok;
    if BytesAvailable(s) >= |data| {
      AnswerWithoutEviction(ok, rest, save);
    } else if Bytes(s.files) < |data| - BytesAvailable(s) {
      AnswerRefused(rest, save);
    } else {
      var lost := Casualties(s, client, path, data, busy, plan);
      EvictStreamRest(Saved(s, client, path, data, busy, plan, save), ok, rest);
      CasualtiesFit(s.files, lost);
      if save {
        AnswerSaved(Parcels(s.files, lost), ok, rest);
      } else {
        AnswerUnsaved(ok, EncodeWord(Status(ok)) + rest);
      }
    }
  }

  // A client that does not hold the file is told so in one word.
  lemma AnswerToStranger(s: Storage, r: Request, rest: seq<Byte>, save: bool)
    requires r.client != 0 && r.Write? && !Holds(s, r.client, r.path)
    ensures AppendAnswer(Step(s, r).sent + rest, save) == Verdict(false, [], rest) && !Step(s, r).ok
  {
    DecodeAnnounced(rest, SAPI_FNF);
    DecodeAnnounced(rest, SAPI_LOCKED);
  }

  /** appendToFile from end to end. A client that does not hold the file sees the refusal. The holder
      sees the true result, has saved exactly the evicted files, in order, if it wants them, and has
      read its whole answer and nothing else, exactly when the answer is plain in the sense above,
      in the storage with the access counted. */
  lemma AppendEndToEnd(s: Storage, client: nat, len: nat, m: Message, busy: set<Path>, plan: seq<Path>, rest: seq<Byte>)
    requires Inv(s) && client != 0 && m.data != [] && Enumerates(s.files, plan) && Presentable(s.files)
    requires m.word == MessageLen(0, SAPI_APPENDFILE, len)
    ensures var o, t := Step(s, RequestOf(client, m, plan, busy)), Touch(s, m.path);
            var answer := AppendAnswer(o.sent + rest, m.sendBack);
            if Holds(s, client, m.path) then
              (answer == Verdict(o.ok, Saved(t, client, m.path, m.data, busy, plan, m.sendBack), rest)
               <==> Plain(t, client, m.path, m.data, busy, plan, m.sendBack))
            else answer == Verdict(false, [], rest) && !o.ok
  {
    hide MessageLen, MessageOp, Inv, WriteHeld, AppendAnswer, Plain, Saved, EncodeWord;
    RequestsArrive(client, len, m, plan, busy);
    var r := Write(client, m.path, true, m.data, busy, plan, m.sendBack);
    if Holds(s, client, m.path) {
      TouchKeepsInv(s, m.path);
      HeldAppendEndToEnd(Touch(s, m.path), client, m.path, m.data, busy, plan, m.sendBack, rest);
    } else {
      AnswerToStranger(s, r, rest, m.sendBack);
    }
  }
}
