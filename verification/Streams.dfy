/** The framed streams that the server writes during an eviction and in answer to readNFiles, and
    the loops of src/serverapi.c that read them back. Writes and reads are complete and in order. */
module Streams {
  import opened Words
  import opened Paths

  // A file as it travels.
  datatype Parcel = Parcel(path: Path, data: seq<Byte>)

  // ------------------------------------------------------------------------ the server's side

  // server_send_path
  function SendPath(path: Path): seq<Byte> {
    EncodeSize(|path|) + path
  }

  // server_send_data: an empty file is refused and nothing at all is written.
  function SendData(data: seq<Byte>): seq<Byte> {
    if data == [] then [] else EncodeSize(|data|) + data
  }

  function SendParcel(f: Parcel): seq<Byte> {
    SendPath(f.path) + SendData(f.data)
  }

  // The files that server_evict sends back, each announced by SAPI_EVICT.
  function EvictFrames(files: seq<Parcel>): seq<Byte> {
    if files == [] then []
    else EncodeWord(SAPI_EVICT) + SendParcel(files[0]) + EvictFrames(files[1..])
  }

  // The files that server_readNFiles sends.
  function ReadFrames(files: seq<Parcel>): seq<Byte> {
    if files == [] then []
    else SendParcel(files[0]) + ReadFrames(files[1..])
  }

  lemma {:induction false} EvictFramesAppend(files: seq<Parcel>, f: Parcel)
    ensures EvictFrames(files + [f]) == EvictFrames(files) + (EncodeWord(SAPI_EVICT) + SendParcel(f))
  {
    if files == [] {
      assert [f][1..] == [] && files + [f] == [f];
    } else {
      assert (files + [f])[0] == files[0] && (files + [f])[1..] == files[1..] + [f];
      EvictFramesAppend(files[1..], f);
    }
  }

  lemma {:induction false} ReadFramesAppend(files: seq<Parcel>, f: Parcel)
    ensures ReadFrames(files + [f]) == ReadFrames(files) + SendParcel(f)
  {
    if files == [] {
      assert [f][1..] == [] && files + [f] == [f];
    } else {
      assert (files + [f])[0] == files[0] && (files + [f])[1..] == files[1..] + [f];
      ReadFramesAppend(files[1..], f);
    }
  }

  // ------------------------------------------------------------------------ the client's side

  // The C string that starts a buffer.
  function CString(b: seq<Byte>): (p: Path)
    ensures 0 !in b ==> p == b
    ensures p <= b && (|p| < |b| ==> b[|p|] == 0)
  {
    if b == [] || b[0] == 0 then [] else [b[0]] + CString(b[1..])
  }

  // What is read of a path. `ZeroPath` is the zero length that sapi_get_path reports as an error;
  // on `CutPath` the reader would block, because the stream ends in the middle of a frame.
  datatype TakenPath = GotPath(path: Path, rest: seq<Byte>) | ZeroPath(rest: seq<Byte>) | CutPath

  // sapi_get_path
  function TakePath(s: seq<Byte>): (t: TakenPath)
    ensures t.GotPath? ==> |t.rest| < |s|
  {
    if |s| < SIZE_BYTES then CutPath
    else
      var len, s1 := Decode(s[..SIZE_BYTES]), s[SIZE_BYTES..];
      if len == 0 then ZeroPath(s1)
      else if |s1| < len then CutPath
      else GotPath(CString(s1[..len]), s1[len..])
  }

  // What is read of a path and its data; `NoData` is the zero length that sapi_get_data reports.
  datatype Taken =
    | Got(file: Parcel, rest: seq<Byte>)
    | NoData(path: Path, rest: seq<Byte>)
    | NoPath(rest: seq<Byte>)
    | Starved

  // sapi_get_path followed by sapi_get_data
  function TakeParcel(s: seq<Byte>): (t: Taken)
    ensures t.Got? ==> |t.rest| < |s| && t.file.data != []
    ensures t.NoData? ==> |t.rest| < |s|
  {
    match TakePath(s)
    case ZeroPath(rest) => NoPath(rest)
    case CutPath => Starved
    case GotPath(path, s2) =>
      if |s2| < SIZE_BYTES then Starved
      else
        var len, s3 := Decode(s2[..SIZE_BYTES]), s2[SIZE_BYTES..];
        if len == 0 then NoData(path, s3)
        else if |s3| < len then Starved
        else Got(Parcel(path, s3[..len]), s3[len..])
  }

  // How a reading loop ends: by a word other than SAPI_EVICT, by an error, or blocked.
  datatype Ended = Ended(status: nat) | Broken | Blocked

  datatype Decoded = Decoded(files: seq<Parcel>, rest: seq<Byte>, how: Ended)

  function Prepend(f: Parcel, d: Decoded): Decoded {
    d.(files := [f] + d.files)
  }

  // sapi_evict, after the save-back flag is sent.
  function DecodeEvict(s: seq<Byte>): Decoded
    decreases |s|
  {
    if |s| < WORD_BYTES then Decoded([], s, Blocked)
    else
      var m, s1 := Decode(s[..WORD_BYTES]), s[WORD_BYTES..];
      if m != SAPI_EVICT then Decoded([], s1, Ended(m))
      else
        match TakeParcel(s1)
        case Got(f, rest) => Prepend(f, DecodeEvict(rest))
        case NoData(_, rest) => DecodeEvict(rest)
        case NoPath(rest) => Decoded([], rest, Broken)
        case Starved => Decoded([], s1, Blocked)
  }

  // The loop of readNFiles. A zero length, meant as the end of the list, makes sapi_get_path
  // fail, and the process exits: `Broken`. `Ended(0)` is the return for an empty C string.
  function DecodeReadN(s: seq<Byte>): Decoded
    decreases |s|
  {
    var t := TakePath(s);
    if t.GotPath? && t.path == [] then Decoded([], t.rest, Ended(0))
    else
      match TakeParcel(s)
      case NoPath(rest) => Decoded([], rest, Broken)
      case Starved => Decoded([], s, Blocked)
      case NoData(_, rest) => DecodeReadN(rest)
      case Got(f, rest) => Prepend(f, DecodeReadN(rest))
  }

  // ----------------------------------------------------------------------------- round trips

  ghost predicate FitsInSize(f: Parcel) {
    |f.path| < SIZE_MOD && |f.data| < SIZE_MOD
  }

  // What both streams need of a file: without a path or without data its frame is no frame.
  predicate Sendable(f: Parcel) {
    f.path != [] && f.data != []
  }

  lemma TakeSentPath(path: Path, after: seq<Byte>)
    requires 0 < |path| < SIZE_MOD
    ensures TakePath(SendPath(path) + after) == GotPath(path, after)
  {
    hide EncodeSize, Decode;
    var s := SendPath(path) + after;
    assert s[..SIZE_BYTES] == EncodeSize(|path|) && s[SIZE_BYTES..] == path + after;
    DecodeSize(|path|);
    assert (path + after)[..|path|] == path && (path + after)[|path|..] == after;
  }

  // What is read of the data that follow a path.
  lemma TakeSentData(data: seq<Byte>, rest: seq<Byte>)
    requires 0 < |data| < SIZE_MOD
    ensures var s := SendData(data) + rest;
            && |s| >= SIZE_BYTES && Decode(s[..SIZE_BYTES]) == |data| && |s[SIZE_BYTES..]| >= |data|
            && s[SIZE_BYTES..][..|data|] == data && s[SIZE_BYTES..][|data|..] == rest
  {
    hide EncodeSize, Decode;
    var s := SendData(data) + rest;
    assert s[..SIZE_BYTES] == EncodeSize(|data|) && s[SIZE_BYTES..] == data + rest;
    DecodeSize(|data|);
  }

  lemma TakeSentParcel(f: Parcel, rest: seq<Byte>)
    requires FitsInSize(f) && Sendable(f)
    ensures TakeParcel(SendParcel(f) + rest) == Got(f, rest)
    ensures TakePath(SendParcel(f) + rest) == GotPath(f.path, SendData(f.data) + rest)
  {
    hide EncodeSize, Decode, TakePath, SendPath, SendData;
    var after := SendData(f.data) + rest;
    assert SendParcel(f) + rest == SendPath(f.path) + after;
    TakeSentPath(f.path, after);
    TakeSentData(f.data, rest);
  }

  lemma TakeZero(rest: seq<Byte>)
    ensures TakeParcel(EncodeSize(0) + rest) == NoPath(rest)
  {
    var zero := EncodeSize(0);
    DecodeSize(0);
    assert (zero + rest)[..SIZE_BYTES] == zero && (zero + rest)[SIZE_BYTES..] == rest;
  }

  lemma TakeWithoutPath(f: Parcel, rest: seq<Byte>)
    requires f.path == []
    ensures TakeParcel(SendParcel(f) + rest) == NoPath(SendData(f.data) + rest)
  {
    var zero, d := EncodeSize(|f.path|), SendData(f.data);
    assert zero + f.path + d + rest == zero + (d + rest);
    TakeZero(d + rest);
  }

  lemma DecodeAnnounced(s: seq<Byte>, m: nat)
    requires m < UINT_MOD
    ensures (EncodeWord(m) + s)[WORD_BYTES..] == s && Decode((EncodeWord(m) + s)[..WORD_BYTES]) == m
  {
    assert (EncodeWord(m) + s)[..WORD_BYTES] == EncodeWord(m);
    DecodeWord(m);
  }

  lemma {:induction false} DecodedFilesHaveData(s: seq<Byte>)
    ensures forall f | f in DecodeEvict(s).files :: f.data != []
    decreases |s|
  {
    if |s| < WORD_BYTES || Decode(s[..WORD_BYTES]) != SAPI_EVICT {
    } else {
      var s1 := s[WORD_BYTES..];
      var t := TakeParcel(s1);
      if t.Got? || t.NoData? {
        DecodedFilesHaveData(t.rest);
      }
    }
  }

  // The stream of an eviction: the files, a final word, and whatever follows.
  function EvictStream(files: seq<Parcel>, status: nat, rest: seq<Byte>): seq<Byte> {
    EvictFrames(files) + (EncodeWord(status) + rest)
  }

  lemma EvictStreamCons(files: seq<Parcel>, status: nat, rest: seq<Byte>)
    requires files != []
    ensures EvictStream(files, status, rest) ==
            EncodeWord(SAPI_EVICT) + (SendParcel(files[0]) + EvictStream(files[1..], status, rest))
  {
  }

  lemma DecodeOneFrame(f: Parcel, after: seq<Byte>)
    requires FitsInSize(f)
    ensures var d := DecodeEvict(EncodeWord(SAPI_EVICT) + (SendParcel(f) + after));
            && (Sendable(f) ==> d == Prepend(f, DecodeEvict(after)))
            && (f.path == [] ==> d.how == Broken && d.files == [])
  {
    DecodeAnnounced(SendParcel(f) + after, SAPI_EVICT);
    if Sendable(f) {
      TakeSentParcel(f, after);
    } else if f.path == [] {
      TakeWithoutPath(f, after);
    }
  }

  lemma {:induction false} SendableIsRecovered(files: seq<Parcel>, status: nat, rest: seq<Byte>)
    requires status < UINT_MOD && status != SAPI_EVICT && forall f | f in files :: FitsInSize(f) && Sendable(f)
    ensures DecodeEvict(EvictStream(files, status, rest)) == Decoded(files, rest, Ended(status))
    decreases |files|
  {
    if files == [] {
      assert EvictStream(files, status, rest) == EncodeWord(status) + rest;
      DecodeAnnounced(rest, status);
    } else {
      var f, tail := files[0], files[1..];
      assert f in files && files == [f] + tail;
      EvictStreamCons(files, status, rest);
      DecodeOneFrame(f, EvictStream(tail, status, rest));
      SendableIsRecovered(tail, status, rest);
    }
  }

  lemma {:induction false} RecoveredIsSendable(files: seq<Parcel>, status: nat, rest: seq<Byte>)
    requires forall f | f in files :: FitsInSize(f)
    requires DecodeEvict(EvictStream(files, status, rest)).files == files
    ensures forall f | f in files :: Sendable(f)
    decreases |files|
  {
    if files != [] {
      var f, tail := files[0], files[1..];
      assert f in files && files == [f] + tail;
      DecodedFilesHaveData(EvictStream(files, status, rest));
      EvictStreamCons(files, status, rest);
      hide EncodeWord, SendParcel, EvictStream, DecodeEvict, FitsInSize;
      DecodeOneFrame(f, EvictStream(tail, status, rest));
      RecoveredIsSendable(tail, status, rest);
    }
  }

  /** Round trip of the eviction stream. The client recovers exactly the evicted files, in order,
      and stops exactly after the final word, if and only if no evicted file has an empty path or
      empty contents. */
  lemma EvictRoundTrip(files: seq<Parcel>, status: nat, rest: seq<Byte>)
    requires status < UINT_MOD && status != SAPI_EVICT && forall f | f in files :: FitsInSize(f)
    ensures DecodeEvict(EvictStream(files, status, rest)) == Decoded(files, rest, Ended(status))
            <==> forall f | f in files :: Sendable(f)
  {
    if forall f | f in files :: Sendable(f) {
      SendableIsRecovered(files, status, rest);
    } else if DecodeEvict(EvictStream(files, status, rest)) == Decoded(files, rest, Ended(status)) {
      RecoveredIsSendable(files, status, rest);
    }
  }

  // ------------------------------------------------------------------- files without contents

  /** A frame with an explicit length of zero is passed over by both loops. */
  lemma ZeroLengthIsSkipped(path: Path, rest: seq<Byte>)
    requires 0 < |path| < SIZE_MOD
    ensures DecodeEvict(EncodeWord(SAPI_EVICT) + (SendPath(path) + (EncodeSize(0) + rest))) == DecodeEvict(rest)
    ensures DecodeReadN(SendPath(path) + (EncodeSize(0) + rest)) == DecodeReadN(rest)
  {
    var after := EncodeSize(0) + rest;
    TakeSentPath(path, after);
    DecodeSize(0);
    assert after[..SIZE_BYTES] == EncodeSize(0) && after[SIZE_BYTES..] == rest;
    DecodeAnnounced(SendPath(path) + after, SAPI_EVICT);
  }

  lemma TwoWords(m: nat, n: nat)
    requires m < UINT_MOD && n < UINT_MOD
    ensures Decode(EncodeWord(m) + EncodeWord(n)) == m + UINT_MOD * n
  {
    assert Power256(4) == UINT_MOD;
    hide EncodeWord, Decode, Power256;
    DecodeConcat(EncodeWord(m), EncodeWord(n));
    DecodeWord(m);
    DecodeWord(n);
  }

  // What follows the path of an empty file, when another file is announced next, reads as a length
  // beyond 2^32: the word SAPI_EVICT is its low half, and the length of the next path its high half.
  lemma NextFrameIsALength(g: Parcel, after: seq<Byte>)
    requires 0 < |g.path| < UINT_MOD
    ensures var s := EncodeWord(SAPI_EVICT) + (SendParcel(g) + after);
            |s| >= SIZE_BYTES && Decode(s[..SIZE_BYTES]) >= UINT_MOD
  {
    EncodePrefix(|g.path|, SIZE_BYTES, WORD_BYTES);
    TwoWords(SAPI_EVICT, |g.path|);
    assert EncodeSize(|g.path|)[..WORD_BYTES] == EncodeWord(|g.path|);
    hide EncodeWord, EncodeSize, Decode, SendData;
    var s := EncodeWord(SAPI_EVICT) + (SendParcel(g) + after);
    assert (SendParcel(g) + after)[..WORD_BYTES] == EncodeSize(|g.path|)[..WORD_BYTES];
    assert s[..SIZE_BYTES] == EncodeWord(SAPI_EVICT) + (SendParcel(g) + after)[..WORD_BYTES];
  }

  lemma FramesThen(files: seq<Parcel>, tail: seq<Byte>)
    requires files != []
    ensures EvictFrames(files) + tail == EncodeWord(SAPI_EVICT) + (SendParcel(files[0]) + (EvictFrames(files[1..]) + tail))
  {
    hide EncodeWord, SendParcel;
    Regroup(EncodeWord(SAPI_EVICT), SendParcel(files[0]), EvictFrames(files[1..]), tail);
  }

  lemma EmptyFrameStarves(f: Parcel, g: Parcel, after: seq<Byte>)
    requires 0 < |f.path| < SIZE_MOD && f.data == [] && 0 < |g.path| < UINT_MOD
    requires |SendParcel(g) + after| < UINT_MOD
    ensures TakeParcel(SendParcel(f) + (EncodeWord(SAPI_EVICT) + (SendParcel(g) + after))) == Starved
  {
    hide EncodeWord, EncodeSize, Decode, SendPath, TakePath;
    var next := EncodeWord(SAPI_EVICT) + (SendParcel(g) + after);
    assert SendParcel(f) + next == SendPath(f.path) + next;
    TakeSentPath(f.path, next);
    NextFrameIsALength(g, after);
  }

  lemma {:induction false} SendablePrefix(files: seq<Parcel>, tail: seq<Byte>)
    requires forall f | f in files :: FitsInSize(f) && Sendable(f)
    ensures DecodeEvict(EvictFrames(files) + tail) == Append(files, DecodeEvict(tail))
    decreases |files|
  {
    if files == [] {
      assert EvictFrames(files) + tail == tail;
      AppendNothing(DecodeEvict(tail));
    } else {
      var f, more := files[0], files[1..];
      assert f in files && forall x | x in more :: x in files;
      hide EncodeWord, SendParcel, EvictFrames, DecodeEvict, FitsInSize, Sendable, Append, Prepend;
      SendablePrefix(more, tail);
      FramesThen(files, tail);
      DecodeOneFrame(f, EvictFrames(more) + tail);
      PrependAppend(files, DecodeEvict(tail));
    }
  }

  /** An empty file that is followed by another one leaves the client waiting for data that never
      come, unless 2^32 bytes or more do. */
  lemma EmptyFileBlocks(before: seq<Parcel>, f: Parcel, g: Parcel, after: seq<Byte>)
    requires forall x | x in before :: FitsInSize(x) && Sendable(x)
    requires 0 < |f.path| < SIZE_MOD && f.data == [] && 0 < |g.path| < UINT_MOD
    requires |SendParcel(g) + after| < UINT_MOD
    ensures DecodeEvict(EvictFrames(before) + (EncodeWord(SAPI_EVICT) + (SendParcel(f) +
              (EncodeWord(SAPI_EVICT) + (SendParcel(g) + after))))).how == Blocked
  {
    hide EncodeWord, Decode, SendParcel, TakeParcel, EvictFrames;
    var s := SendParcel(f) + (EncodeWord(SAPI_EVICT) + (SendParcel(g) + after));
    EmptyFrameStarves(f, g, after);
    DecodeAnnounced(s, SAPI_EVICT);
    SendablePrefix(before, EncodeWord(SAPI_EVICT) + s);
  }

  // --------------------------------------------------------------------------- cut-off streams

  lemma CutPathStarves(path: Path, after: seq<Byte>, k: nat)
    requires 0 < |path| < SIZE_MOD && k < |SendPath(path)|
    ensures TakePath((SendPath(path) + after)[..k]) == CutPath
  {
    var s := (SendPath(path) + after)[..k];
    if k >= SIZE_BYTES {
      assert s[..SIZE_BYTES] == EncodeSize(|path|);
      DecodeSize(|path|);
    }
  }

  // A parcel that is cut off anywhere is waited for.
  lemma CutParcelStarves(f: Parcel, after: seq<Byte>, k: nat)
    requires FitsInSize(f) && Sendable(f) && k < |SendParcel(f)|
    ensures TakeParcel((SendParcel(f) + after)[..k]) == Starved
    ensures TakePath((SendParcel(f) + after)[..k]).GotPath? ==> TakePath((SendParcel(f) + after)[..k]).path == f.path
  {
    var s, tail := (SendParcel(f) + after)[..k], SendData(f.data) + after;
    assert SendParcel(f) + after == SendPath(f.path) + tail;
    if k < |SendPath(f.path)| {
      CutPathStarves(f.path, tail, k);
    } else {
      var j := k - |SendPath(f.path)|;
      assert s == SendPath(f.path) + tail[..j];
      TakeSentPath(f.path, tail[..j]);
      if j >= SIZE_BYTES {
        assert tail[..j][..SIZE_BYTES] == EncodeSize(|f.data|);
        DecodeSize(|f.data|);
      }
    }
  }

  lemma CutFrameBlocks(f: Parcel, after: seq<Byte>, k: nat)
    requires FitsInSize(f) && Sendable(f) && k < WORD_BYTES + |SendParcel(f)|
    ensures DecodeEvict((EncodeWord(SAPI_EVICT) + (SendParcel(f) + after))[..k]).how == Blocked
  {
    hide EncodeWord, SendParcel, TakeParcel, TakePath, FitsInSize, Sendable, Decode;
    var s := (EncodeWord(SAPI_EVICT) + (SendParcel(f) + after))[..k];
    if k >= WORD_BYTES {
      assert s == EncodeWord(SAPI_EVICT) + (SendParcel(f) + after)[..k - WORD_BYTES];
      DecodeAnnounced((SendParcel(f) + after)[..k - WORD_BYTES], SAPI_EVICT);
      CutParcelStarves(f, after, k - WORD_BYTES);
    }
  }

  lemma WholeFrameThenCut(f: Parcel, after: seq<Byte>, k: nat)
    requires WORD_BYTES + |SendParcel(f)| <= k <= WORD_BYTES + |SendParcel(f)| + |after|
    ensures (EncodeWord(SAPI_EVICT) + (SendParcel(f) + after))[..k] ==
            EncodeWord(SAPI_EVICT) + (SendParcel(f) + after[..k - WORD_BYTES - |SendParcel(f)|])
  {
    hide EncodeWord, SendParcel;
  }

  /** The stream of an eviction tells its own end: whatever part of it has arrived, as long as
      something is missing the client waits, and does not take the part for the whole. */
  lemma {:induction false} CutEvictStreamBlocks(files: seq<Parcel>, status: nat, k: nat)
    requires (forall f | f in files :: FitsInSize(f) && Sendable(f)) && k < |EvictStream(files, status, [])|
    ensures DecodeEvict(EvictStream(files, status, [])[..k]).how == Blocked
    decreases |files|
  {
    if files != [] {
      var f, tail := files[0], files[1..];
      var after := EvictStream(tail, status, []);
      assert f in files && forall x | x in tail :: x in files;
      EvictStreamCons(files, status, []);
      hide EvictStream, EncodeWord, SendParcel, FitsInSize, Sendable, DecodeEvict;
      if k < WORD_BYTES + |SendParcel(f)| {
        CutFrameBlocks(f, after, k);
      } else {
        WholeFrameThenCut(f, after, k);
        CutEvictStreamBlocks(tail, status, k - WORD_BYTES - |SendParcel(f)|);
        DecodeOneFrame(f, after[..k - WORD_BYTES - |SendParcel(f)|]);
      }
    }
  }

  /** A path that starts with the terminating NUL ends the loop of readNFiles, whatever follows it. */
  lemma EmptyStringEndsReading(name: seq<Byte>, rest: seq<Byte>)
    requires 0 < |name| < SIZE_MOD && name[0] == 0
    ensures DecodeReadN(EncodeSize(|name|) + name + rest) == Decoded([], rest, Ended(0))
  {
    var s := EncodeSize(|name|) + name + rest;
    assert s[..SIZE_BYTES] == EncodeSize(|name|) && s[SIZE_BYTES..] == name + rest;
    DecodeSize(|name|);
    assert (name + rest)[..|name|] == name && (name + rest)[|name|..] == rest;
  }

  // The answer to readNFiles: the files, a zero length, and whatever follows.
  function ReadStream(files: seq<Parcel>, rest: seq<Byte>): seq<Byte> {
    ReadFrames(files) + (EncodeSize(0) + rest)
  }

  lemma ReadStreamCons(files: seq<Parcel>, rest: seq<Byte>)
    requires files != []
    ensures ReadStream(files, rest) == SendParcel(files[0]) + ReadStream(files[1..], rest)
  {
  }

  // The files before the first one with an empty path.
  function UpToNameless(files: seq<Parcel>): (r: seq<Parcel>)
    ensures |r| <= |files|
    ensures r == files <==> forall f | f in files :: f.path != []
  {
    if files == [] || files[0].path == [] then []
    else
      assert files == [files[0]] + files[1..];
      [files[0]] + UpToNameless(files[1..])
  }

  // The client recovers the files before the first one with an empty path, and fails there or at the
  // zero that ends the list.
  lemma {:induction false} ReadStreamDecodes(files: seq<Parcel>, rest: seq<Byte>)
    requires forall f | f in files :: FitsInSize(f) && f.data != []
    ensures DecodeReadN(ReadStream(files, rest)).how == Broken
    ensures DecodeReadN(ReadStream(files, rest)).files == UpToNameless(files)
    ensures UpToNameless(files) == files ==> DecodeReadN(ReadStream(files, rest)).rest == rest
    decreases |files|
  {
    if files == [] {
      assert ReadStream(files, rest) == EncodeSize(0) + rest;
      TakeZero(rest);
    } else {
      var f, tail := files[0], files[1..];
      assert f in files && files == [f] + tail;
      ReadStreamCons(files, rest);
      hide ReadStream, EncodeSize;
      if f.path == [] {
        TakeWithoutPath(f, ReadStream(tail, rest));
      } else {
        TakeSentParcel(f, ReadStream(tail, rest));
        ReadStreamDecodes(tail, rest);
      }
    }
  }

  /** Round trip of the answer to readNFiles. The client recovers exactly the files that were sent
      if and only if none of them has an empty path. It never returns their number: the zero that
      ends the list, or that stands for an empty path, is an error to it. */
  lemma ReadRoundTrip(files: seq<Parcel>, rest: seq<Byte>)
    requires forall f | f in files :: FitsInSize(f) && f.data != []
    ensures DecodeReadN(ReadStream(files, rest)).how == Broken
    ensures DecodeReadN(ReadStream(files, rest)) == Decoded(files, rest, Broken) <==> forall f | f in files :: f.path != []
  {
    ReadStreamDecodes(files, rest);
  }

  /** Of the answer to readNFiles, too, no part is taken for the whole. */
  lemma {:induction false} CutReadStreamBlocks(files: seq<Parcel>, k: nat)
    requires (forall f | f in files :: FitsInSize(f) && Sendable(f)) && k < |ReadStream(files, [])|
    ensures DecodeReadN(ReadStream(files, [])[..k]).how == Blocked
    decreases |files|
  {
    if files != [] {
      var f, tail := files[0], files[1..];
      var after := ReadStream(tail, []);
      assert f in files && forall x | x in tail :: x in files;
      ReadStreamCons(files, []);
      hide ReadStream, EncodeSize, SendParcel, FitsInSize;
      if k < |SendParcel(f)| {
        CutParcelStarves(f, after, k);
      } else {
        var j := k - |SendParcel(f)|;
        assert (SendParcel(f) + after)[..k] == SendParcel(f) + after[..j];
        CutReadStreamBlocks(tail, j);
        TakeSentParcel(f, after[..j]);
      }
    }
  }

  // ----------------------------------------------------------------------- the reading loops

  function Append(saved: seq<Parcel>, d: Decoded): Decoded {
    d.(files := saved + d.files)
  }

  lemma AppendNothing(d: Decoded)
    ensures Append([], d) == d
  {
    assert [] + d.files == d.files;
  }

  lemma PrependAppend(files: seq<Parcel>, d: Decoded)
    requires files != []
    ensures Prepend(files[0], Append(files[1..], d)) == Append(files, d)
  {
    assert files == [files[0]] + files[1..];
    assert [files[0]] + (files[1..] + d.files) == files + d.files;
  }

  lemma AppendPrepend(saved: seq<Parcel>, f: Parcel, d: Decoded)
    ensures Append(saved, Prepend(f, d)) == Append(saved + [f], d)
  {
  }

  // sapi_evict: the loop runs as long as the next word announces a file.
  method SapiEvict(stream: seq<Byte>) returns (r: Decoded)
    ensures r == DecodeEvict(stream)
  {
    var saved, rest := [], stream;
    while |rest| >= WORD_BYTES && Decode(rest[..WORD_BYTES]) == SAPI_EVICT
      invariant Append(saved, DecodeEvict(rest)) == DecodeEvict(stream)
      decreases |rest|
    {
      match TakeParcel(rest[WORD_BYTES..])
      case Got(f, s2) =>
        AppendPrepend(saved, f, DecodeEvict(s2));
        saved, rest := saved + [f], s2;
      case NoData(_, s2) =>
        rest := s2;
      case NoPath(s2) =>
        return Decoded(saved, s2, Broken);
      case Starved =>
        return Decoded(saved, rest[WORD_BYTES..], Blocked);
    }
    if |rest| < WORD_BYTES {
      return Decoded(saved, rest, Blocked);
    }
    return Decoded(saved, rest[WORD_BYTES..], Ended(Decode(rest[..WORD_BYTES])));
  }

  // readNFiles, after the request is sent: `while (1)`, left only from the inside.
  method ReadNFiles(stream: seq<Byte>) returns (r: Decoded)
    ensures r == DecodeReadN(stream)
  {
    var saved, rest := [], stream;
    while true
      invariant Append(saved, DecodeReadN(rest)) == DecodeReadN(stream)
      decreases |rest|
    {
      var name := TakePath(rest);
      if name.GotPath? && name.path == [] {
        return Decoded(saved, name.rest, Ended(0));
      }
      match TakeParcel(rest)
      case NoPath(s2) =>
        return Decoded(saved, s2, Broken);
      case Starved =>
        return Decoded(saved, rest, Blocked);
      case NoData(_, s2) =>
        rest := s2;
      case Got(f, s2) =>
        AppendPrepend(saved, f, DecodeReadN(s2));
        saved, rest := saved + [f], s2;
    }
  }
}
