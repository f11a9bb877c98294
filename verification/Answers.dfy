/** What the server answers: every word that a handler sends tells the truth about the storage. The laws
    are about the bytes that are sent. */
module Answers {
  import opened Words
  import opened Paths
  import opened Streams
  import opened Store
  import opened Accounts
  import opened Eviction
  import opened Runs
  import opened Clients
  import opened Accesses

  function FirstWord(sent: seq<Byte>): nat
    requires |sent| >= WORD_BYTES
  {
    Decode(sent[..WORD_BYTES])
  }

  function FinalWord(sent: seq<Byte>): nat
    requires |sent| >= WORD_BYTES
  {
    Decode(sent[|sent| - WORD_BYTES..])
  }

  lemma FirstIs(m: nat, rest: seq<Byte>)
    requires m < UINT_MOD
    ensures FirstWord(EncodeWord(m) + rest) == m
  {
    DecodeAnnounced(rest, m);
  }

  lemma FinalIs(before: seq<Byte>, m: nat)
    requires m < UINT_MOD
    ensures FinalWord(before + EncodeWord(m)) == m
  {
    var sent := before + EncodeWord(m);
    assert sent[|sent| - WORD_BYTES..] == EncodeWord(m);
    DecodeWord(m);
  }

  lemma SingleIs(m: nat)
    requires m < UINT_MOD
    ensures FirstWord(EncodeWord(m)) == m && FinalWord(EncodeWord(m)) == m
  {
    assert EncodeWord(m) + [] == EncodeWord(m) && [] + EncodeWord(m) == EncodeWord(m);
    FirstIs(m, []);
    FinalIs([], m);
  }

  lemma StatusWords()
    ensures FirstWord(EncodeWord(SAPI_SUCCESS)) == SAPI_SUCCESS && FirstWord(EncodeWord(SAPI_FAILURE)) == SAPI_FAILURE
    ensures FirstWord(EncodeWord(SAPI_FNF)) == SAPI_FNF && FirstWord(EncodeWord(SAPI_LOCKED)) == SAPI_LOCKED
    ensures FirstWord(EncodeWord(SAPI_ALREADY)) == SAPI_ALREADY
  {
    SingleIs(SAPI_SUCCESS);
    SingleIs(SAPI_FAILURE);
    SingleIs(SAPI_FNF);
    SingleIs(SAPI_LOCKED);
    SingleIs(SAPI_ALREADY);
  }

  // ------------------------------------------------------------------------ handler by handler

  /** openFile answers one word, which says what happened and why. */
  lemma OpenAnswer(s: Storage, client: nat, path: Path, create: bool, lock: bool)
    requires Inv(s)
    ensures var o := DoOpen(s, client, path, create, lock);
            && |o.sent| == WORD_BYTES && var w := FirstWord(o.sent);
            && (w == SAPI_FNF <==> path !in s.files && !create)
            && (w == SAPI_FAILURE <==> path !in s.files && create && (|s.files| == s.maxFiles || Bytes(s.files) == s.maxBytes))
            && (w == SAPI_ALREADY <==> path in s.files && s.files[path].client != FREE)
            && (w == SAPI_SUCCESS <==> !Holds(s, client, path) && Holds(o.store, client, path))
            && (o.ok <==> w == SAPI_SUCCESS) && w != SAPI_LOCKED
  {
    StatusWords();
    hide EncodeWord, FirstWord, UInt;
    if path !in s.files {
      CreateSucceedsIff(s, client, path, create, lock);
    }
  }

  /** closeFile answers one word; a file is closed exactly for its holder, and keeps its contents. */
  lemma CloseAnswer(s: Storage, client: nat, path: Path)
    ensures var o := DoClose(s, client, path);
            && |o.sent| == WORD_BYTES && var w := FirstWord(o.sent);
            && (w == SAPI_FNF <==> path !in s.files)
            && (w == SAPI_LOCKED <==> path in s.files && s.files[path].client != client)
            && (w == SAPI_SUCCESS <==> Holds(s, client, path)) && (o.ok <==> w == SAPI_SUCCESS)
            && o.store.files.Keys == s.files.Keys
            && (forall q | q in s.files ::
                  && o.store.files[q].data == s.files[q].data
                  && o.store.files[q].client == if q == path && Holds(s, client, path) then FREE else s.files[q].client)
  {
    StatusWords();
    hide EncodeWord, FirstWord;
  }

  /** readFile answers one word, and after a success the length and the contents of the file, unless it
      is empty; a read changes neither contents nor holders. */
  lemma ReadAnswer(s: Storage, client: nat, path: Path)
    requires NoZeroOwner(s) && client != 0
    ensures var o := DoRead(s, client, path);
            && |o.sent| >= WORD_BYTES && var w := FirstWord(o.sent);
            && (w == SAPI_FNF <==> path !in s.files)
            && (w == SAPI_LOCKED <==> path in s.files && s.files[path].client != client)
            && (w == SAPI_SUCCESS <==> Holds(s, client, path)) && (o.ok <==> w == SAPI_SUCCESS)
            && (w != SAPI_SUCCESS ==> |o.sent| == WORD_BYTES)
            && (w == SAPI_SUCCESS ==> Contains(o.sent[WORD_BYTES..], s.files[path].data))
            && o.store.files.Keys == s.files.Keys
            && (forall q | q in s.files :: o.store.files[q].data == s.files[q].data && o.store.files[q].client == s.files[q].client)
  {
    StatusWords();
    if Holds(s, client, path) {
      FirstIs(SAPI_SUCCESS, SendData(s.files[path].data));
      ContentsSent(s.files[path].data);
    }
    hide EncodeWord, FirstWord, SendData, Contains;
  }

  // Nothing for an empty file; otherwise its length, in eight bytes, and its contents.
  ghost predicate Contains(sent: seq<Byte>, data: seq<Byte>) {
    if data == [] then sent == []
    else |sent| == SIZE_BYTES + |data| && sent[SIZE_BYTES..] == data && (|data| < SIZE_MOD ==> Decode(sent[..SIZE_BYTES]) == |data|)
  }

  lemma ContentsSent(data: seq<Byte>)
    ensures Contains(SendData(data), data)
  {
    if data != [] {
      assert SendData(data)[..SIZE_BYTES] == EncodeSize(|data|);
      if |data| < SIZE_MOD {
        DecodeSize(|data|);
      }
    }
  }

  /** removeFile answers one word; a file that is not stored counts as removed for the handler, though
      the client is told that there is none. */
  lemma RemoveAnswer(s: Storage, client: nat, path: Path)
    ensures var o := DoRemove(s, client, path);
            && |o.sent| == WORD_BYTES && var w := FirstWord(o.sent);
            && (w == SAPI_FNF <==> path !in s.files)
            && (w == SAPI_LOCKED <==> path in s.files && s.files[path].client != client)
            && (w == SAPI_SUCCESS <==> Holds(s, client, path)) && (o.ok <==> w != SAPI_LOCKED)
            && (w == SAPI_SUCCESS <==> path in s.files && path !in o.store.files)
  {
    StatusWords();
    hide EncodeWord, FirstWord;
  }

  /** A write or an append of a client that does not hold the file is refused in one word. */
  lemma RefusedWriteAnswer(s: Storage, r: Request)
    requires r.client != 0 && r.Write? && !Holds(s, r.client, r.path)
    ensures var o := Step(s, r);
            && |o.sent| == WORD_BYTES && !o.ok && o.store == Touch(s, r.path)
            && FirstWord(o.sent) == if r.path in s.files then SAPI_LOCKED else SAPI_FNF
  {
    StatusWords();
    hide EncodeWord, FirstWord, WriteHeld;
  }

  // The words of an answer that announces an eviction.
  lemma EvictionWords(files: seq<Parcel>, ok: bool)
    ensures var sent := EncodeWord(SAPI_EVICT) + EvictStream(files, Status(ok), EncodeWord(Status(ok)));
            |sent| >= 2 * WORD_BYTES && FirstWord(sent) == SAPI_EVICT && FinalWord(sent) == Status(ok)
  {
    hide EncodeWord, FirstWord, FinalWord, EvictFrames;
    var evict, frames, word := EncodeWord(SAPI_EVICT), EvictFrames(files), EncodeWord(Status(ok));
    FirstIs(SAPI_EVICT, frames + (word + word));
    Regroup(evict, frames, word, word);
    FinalIs(evict + frames + word, Status(ok));
  }

  // The first and the last word of an answer to a write of the holder.
  lemma AnswerWords(s: Storage, client: nat, path: Path, data: seq<Byte>, busy: set<Path>, plan: seq<Path>, save: bool, ok: bool)
    requires Inv(s)
    ensures var sent, room := AnswerTo(s, client, path, data, busy, plan, save, ok), s.maxBytes - Bytes(s.files);
            && |sent| >= WORD_BYTES
            && FirstWord(sent) == (if |data| <= room then SAPI_SUCCESS
                                   else if |data| <= s.maxBytes then SAPI_EVICT else SAPI_FAILURE)
            && (|data| <= s.maxBytes ==> |sent| >= 2 * WORD_BYTES && FinalWord(sent) == Status(ok))
            && (|data| > s.maxBytes ==> |sent| == WORD_BYTES && FinalWord(sent) == SAPI_FAILURE)
  {
    hide EncodeWord, FirstWord, FinalWord, EvictStream, Saved, Bytes;
    EvictionWords(Saved(s, client, path, data, busy, plan, save), ok);
    FirstIs(SAPI_SUCCESS, EncodeWord(Status(ok)));
    FinalIs(EncodeWord(SAPI_SUCCESS), Status(ok));
    SingleIs(SAPI_FAILURE);
  }

  // What is kept of the storage when the holder's lookup is counted.
  lemma Looked(s: Storage, r: Request)
    requires Inv(s) && Legal(s, r) && r.client != 0 && r.Write? && Holds(s, r.client, r.path)
    ensures var t := Touch(s, r.path);
            && Inv(t) && Enumerates(t.files, r.plan) && Holds(t, r.client, r.path)
            && Bytes(t.files) == Bytes(s.files) && t.maxBytes == s.maxBytes
            && Step(s, r) == WriteHeld(t, r.client, r.path, r.append, r.data, r.busy, r.plan, r.sendBack)
  {
    hide WriteHeld;
    TouchKeepsInv(s, r.path);
    BytesUpdate(s.files, r.path, Touched(s.files[r.path]));
  }

  /** What the holder of a file is told when it writes or appends. First, success if the space is
      there, an eviction if it is not but all the files together with the free space would do, and
      failure otherwise; and in the end, unless that was all, success exactly when there was something
      to write and the files that have to stay left room for it. */
  lemma HolderIsAnswered(s: Storage, r: Request)
    requires Inv(s) && Legal(s, r) && r.client != 0 && r.Write? && Holds(s, r.client, r.path)
    ensures var o, len := Step(s, r), |r.data|;
            && |o.sent| >= WORD_BYTES
            && (FirstWord(o.sent) == SAPI_SUCCESS <==> Bytes(s.files) + len <= s.maxBytes)
            && (FirstWord(o.sent) == SAPI_EVICT <==> Bytes(s.files) + len > s.maxBytes && len <= s.maxBytes)
            && (FirstWord(o.sent) == SAPI_FAILURE <==> len > s.maxBytes)
            && (FirstWord(o.sent) == SAPI_FAILURE <==> |o.sent| == WORD_BYTES)
            && (FinalWord(o.sent) == 0 <==> r.data != [] && Bytes(Kept(s.files, r.client, r.path, r.busy)) + len <= s.maxBytes)
            && (o.ok <==> FinalWord(o.sent) == 0)
  {
    hide Step, WriteHeld, Inv, Enumerates, EncodeWord, FirstWord, FinalWord, AnswerTo, Kept, Bytes, Touch;
    var t, o := Touch(s, r.path), Step(s, r);
    Looked(s, r);
    AnswerIsSent(t, r.client, r.path, r.append, r.data, r.busy, r.plan, r.sendBack);
    AnswerWords(t, r.client, r.path, r.data, r.busy, r.plan, r.sendBack, o.ok);
    OkIffGoesThrough(s, r);
  }

  /** Requests for nothing that the server does: lockFile and unlockFile are granted in silence, an
      unknown operation is refused in one word, and a request with descriptor 0 is not answered. */
  lemma OtherAnswer(s: Storage, r: Request)
    requires r.client == 0 || r.Other?
    ensures Step(s, r).store == s
    ensures Step(s, r).ok <==> r.client != 0 && r.stub
    ensures if r.client == 0 || r.stub then Step(s, r).sent == []
            else |Step(s, r).sent| == WORD_BYTES && FirstWord(Step(s, r).sent) == SAPI_FAILURE
  {
    StatusWords();
  }

  // ---------------------------------------------------------------------------- in one law

  // The request was done, as the storage before and after shows.
  ghost predicate Done(s: Storage, r: Request, t: Storage)
    requires r.Open? || r.Close? || r.Read? || r.Remove?
  {
    match r
    case Open(c, p, _, _) => !Holds(s, c, p) && Holds(t, c, p)
    case Close(c, p) => Holds(s, c, p) && p in t.files && !Holds(t, c, p)
    case Read(c, p) => Holds(s, c, p)
    case Remove(c, p) => p in s.files && p !in t.files
  }

  /** The first word of every answer about a path tells the truth: there is no such file, somebody
      else is in the way, or the request was done. */
  lemma AnswersTellTheTruth(s: Storage, r: Request)
    requires Inv(s) && Legal(s, r) && NoZeroOwner(s) && r.client != 0 && !r.ReadN? && !r.Other?
    ensures var o := Step(s, r);
            && |o.sent| >= WORD_BYTES && var w := FirstWord(o.sent);
            && (w == SAPI_FNF <==> r.path !in s.files && !(r.Open? && r.create))
            && (w == SAPI_ALREADY <==> r.Open? && r.path in s.files && s.files[r.path].client != FREE)
            && (w == SAPI_LOCKED <==> !r.Open? && r.path in s.files && !Holds(s, r.client, r.path))
            && (!r.Write? ==> (w == SAPI_SUCCESS <==> Done(s, r, o.store)))
  {
    hide FirstWord, DoOpen, DoClose, DoRead, DoRemove, DoWrite, Inv, Legal, NoZeroOwner, Contains;
    match r
    case Open(c, p, create, lock) => OpenAnswer(s, c, p, create, lock);
    case Close(c, p) => CloseAnswer(s, c, p);
    case Read(c, p) => ReadAnswer(s, c, p);
    case Remove(c, p) => RemoveAnswer(s, c, p);
    case Write(c, p, _, _, _, _, _) =>
      if Holds(s, c, p) {
        HolderIsAnswered(s, r);
      } else {
        RefusedWriteAnswer(s, r);
      }
  }
}
