/** File transfer over a byte stream: messages with a length in front, read back whatever portions
    the stream comes in. */
module Application {
  import opened Bytes
  import opened Encoding
  import opened Sender

  const LENGTH_SIZE: nat := 4
  const CHUNK: nat := 1020

  const INT_LIMIT: int := 0x8000_0000

  /** The low 32 bits. */
  function Low(n: int): (r: nat)
    ensures r < 0x1_0000_0000
  {
    n % 0x1_0000_0000
  }

  /** A number kept in a 32-bit signed integer. */
  function AsInt(n: int): int {
    if Low(n) < INT_LIMIT then Low(n) else Low(n) - 0x1_0000_0000
  }

  function Message(payload: seq<byte>): (r: seq<byte>)
    ensures |r| == LENGTH_SIZE + |payload|
  {
    Le(LENGTH_SIZE + |payload|, LENGTH_SIZE) + payload
  }

  // ---- Uploading ----

  /** The messages of a file of which `left` bytes are still to be sent. */
  function ChunkMessages(file: seq<byte>, left: int): seq<byte> {
    if left <= 0 || file == [] then []
    else
      var n := Min(CHUNK, |file|);
      Message(file[..n]) + ChunkMessages(file[n..], left - n)
  }

  function SizeMessage(size: nat): (r: seq<byte>)
    ensures |r| == 2 * LENGTH_SIZE
  {
    Message(Le(Low(size), LENGTH_SIZE))
  }

  /** The size in a message, 0 for a file that cannot be opened, then the chunks. */
  function Uploaded(file: Option): seq<byte> {
    var size := if file.Some? then |file.data| else 0;
    SizeMessage(size) + (if file.Some? then ChunkMessages(file.data, AsInt(size)) else [])
  }

  datatype Option = None | Some(data: seq<byte>)

  /** What a service point takes of the messages handed to it: of each as much of its front as fits. */
  function Fronts(messages: seq<seq<byte>>): seq<byte> {
    if messages == [] then []
    else
      var last := messages[|messages| - 1];
      Fronts(messages[..|messages| - 1]) + last[..Min(|last|, MAX_MESSAGE)]
  }

  /** The sending end of a connection: all that the service point has accepted, and the messages handed
      to it one after another. A service point that is not connected accepts nothing. */
  class Outbox {
    const connected: bool
    var sent: seq<byte>
    ghost var handed: seq<seq<byte>>

    ghost predicate Valid()
      reads this
    {
      sent == if connected then Fronts(handed) else []
    }

    constructor (connected: bool)
      ensures Valid() && this.connected == connected && sent == [] && handed == []
    {
      this.connected, sent, handed := connected, [], [];
    }

    method SendPoint(buffer: seq<byte>) returns (taken: nat)
      requires Valid()
      modifies this
      ensures Valid() && handed == old(handed) + [buffer]
      ensures taken == if connected then Min(|buffer|, MAX_MESSAGE) else 0
      ensures sent == old(sent) + buffer[..taken]
    {
      handed := handed + [buffer];
      if !connected {
        return 0;
      }
      taken := Min(|buffer|, MAX_MESSAGE);
      sent := sent + buffer[..taken];
    }

    /** Says whether the loop ends: it goes on for ever while nothing is accepted. */
    method SendIps(buffer: seq<byte>) returns (ends: bool)
      requires Valid()
      modifies this
      ensures Valid() && old(handed) <= handed
      ensures ends <==> connected || buffer == []
      ensures sent == if connected then old(sent) + buffer else old(sent)
    {
      hide Fronts;
      var at := SendPoint(buffer);
      while at < |buffer|
        invariant at <= |buffer| && sent == old(sent) + buffer[..at]
        invariant !connected ==> at == 0
        invariant Valid() && old(handed) <= handed
      {
        var taken := SendPoint(buffer[at..]);
        if taken == 0 {
          return false;
        }
        assert buffer[..at] + buffer[at..][..taken] == buffer[..at + taken];
        at := at + taken;
      }
      assert buffer[..at] == buffer;
      return true;
    }

    method Upload(file: Option) returns (ends: bool)
      requires Valid()
      modifies this
      ensures Valid() && old(handed) <= handed
      ensures ends == connected
      ensures sent == if connected then old(sent) + Uploaded(file) else old(sent)
    {
      hide Fronts, ChunkMessages, Message, AsInt, Low, Le;
      var size := if file.Some? then |file.data| else 0;
      var fileSize := AsInt(size);
      SizeKept(size);
      ends := SendIps(Message(Le(Low(fileSize), LENGTH_SIZE)));
      if !ends || file.None? {
        return;
      }
      UploadChunks(file.data, fileSize);
    }

    method UploadChunks(file: seq<byte>, announced: int)
      requires Valid() && announced <= |file| && connected
      modifies this
      ensures Valid() && old(handed) <= handed
      ensures sent == old(sent) + ChunkMessages(file, announced)
    {
      hide ChunkMessages, Payload, Message, Fronts;
      var at: nat, fileSize := 0, announced;
      assert file[0..] == file;
      while fileSize > 0
        invariant at <= |file| && fileSize <= |file| - at
        invariant Valid() && old(handed) <= handed
        invariant sent + ChunkMessages(file[at..], fileSize) == old(sent) + ChunkMessages(file, announced)
        decreases fileSize
      {
        NextChunk(file, at, fileSize);
        var n := Min(CHUNK, |file| - at);
        var message := Message(file[at..at + n]);
        fileSize := fileSize - n;
        Regroup(sent, message, ChunkMessages(file[at + n..], fileSize));
        var ends := SendIps(message);
        at := at + n;
      }
      NothingLeft(file[at..], fileSize);
    }
  }

  lemma Regroup(a: seq<byte>, b: seq<byte>, c: seq<byte>)
    ensures a + (b + c) == (a + b) + c
  {
  }

  /** The next chunk of a file of which `at` bytes were taken. */
  lemma {:induction false} NextChunk(file: seq<byte>, at: nat, left: int)
    requires 0 < left <= |file| - at
    ensures var n := Min(CHUNK, |file| - at);
            && 0 < n
            && ChunkMessages(file[at..], left) == Message(file[at..at + n]) + ChunkMessages(file[at + n..], left - n)
            && Payload(file[at..], left) == file[at..at + n] + Payload(file[at + n..], left - n)
  {
    var n := Min(CHUNK, |file| - at);
    assert file[at..][..n] == file[at..at + n] && file[at..][n..] == file[at + n..];
  }

  lemma {:induction false} NothingLeft(file: seq<byte>, left: int)
    requires left <= 0
    ensures ChunkMessages(file, left) == Payload(file, left) == []
  {
  }

  // ---- Downloading ----

  /** How many calls of the schedule find bytes. */
  function Busy(schedule: seq<nat>): nat {
    if schedule == [] then 0 else (if schedule[0] > 0 then 1 else 0) + Busy(schedule[1..])
  }

  function FrameLength(prefix: seq<byte>): nat {
    LENGTH_SIZE + Low(FromLe(prefix) - LENGTH_SIZE)
  }

  datatype Transfer = Waiting | Missing | File(data: seq<byte>)

  /** What of a file is stored at the other end. */
  function Payload(file: seq<byte>, left: int): seq<byte> {
    if left <= 0 || file == [] then []
    else
      var n := Min(CHUNK, |file|);
      file[..n] + Payload(file[n..], left - n)
  }

  function Stored(file: Option): Transfer {
    var size := AsInt(if file.Some? then |file.data| else 0);
    if size == 0 then Missing else File(Payload(file.data, size))
  }

  /** The receiving end: the stream, how much of it was read, and how many bytes each of the
      coming calls finds in order. A call returns what it asks for if that is there, otherwise
      what is there, possibly nothing. */
  class Inbox {
    const stream: seq<byte>
    var read: nat
    var schedule: seq<nat>

    constructor (stream: seq<byte>, schedule: seq<nat>)
      ensures this.stream == stream && read == 0 && this.schedule == schedule
    {
      this.stream, read, this.schedule := stream, 0, schedule;
    }

    method RecvPoint(size: nat) returns (data: seq<byte>)
      requires read <= |stream| && schedule != []
      modifies this
      ensures read == old(read) + |data| <= |stream| && data == stream[old(read)..read]
      ensures |data| == Min(size, Min(old(schedule)[0], |stream| - old(read)))
      ensures schedule == old(schedule)[1..]
    {
      var n := Min(size, Min(schedule[0], |stream| - read));
      data := stream[read..read + n];
      read, schedule := read + n, schedule[1..];
    }

    /** The loop that calls until it has all it wants. It makes at least one call, and gives up
        only when there are no more. */
    method RecvAll(size: nat) returns (done: bool, data: seq<byte>)
      requires read <= |stream|
      modifies this
      ensures read == old(read) + |data| <= |stream| && data == stream[old(read)..read]
      ensures if done then |data| == size && |schedule| < |old(schedule)| else schedule == []
      ensures Busy(old(schedule)) <= Busy(schedule) + |data| || (old(read) + size > |stream| || size == 0)
      ensures 0 < size <= Busy(old(schedule)) && old(read) + size <= |stream| ==> done
    {
      data, done := [], false;
      while !done && schedule != []
        invariant read == old(read) + |data| <= |stream| && data == stream[old(read)..read] && |data| <= size
        invariant done ==> |data| == size && |schedule| < |old(schedule)|
        invariant !done ==> |data| < size || size == 0
        invariant |schedule| <= |old(schedule)|
        invariant Busy(old(schedule)) <= Busy(schedule) + |data| || (old(read) + size > |stream| || size == 0)
        decreases |schedule|
      {
        var some := RecvPoint(size - |data|);
        data := data + some;
        done := |data| == size;
      }
    }

    /** The length, then the rest. */
    method RecvIps() returns (done: bool, message: seq<byte>)
      requires read <= |stream|
      modifies this
      ensures read == old(read) + |message| <= |stream| && message == stream[old(read)..read]
      ensures done ==> old(read) + LENGTH_SIZE <= |stream| && |schedule| < |old(schedule)|
                       && |message| == FrameLength(stream[old(read)..old(read) + LENGTH_SIZE])
      ensures old(read) + LENGTH_SIZE <= |stream| ==>
                var length := FrameLength(stream[old(read)..old(read) + LENGTH_SIZE]);
                old(read) + length <= |stream| && LENGTH_SIZE < length <= Busy(old(schedule))
                ==> done && Busy(old(schedule)) <= Busy(schedule) + |message|
    {
      var rest: seq<byte>;
      done, message := RecvAll(LENGTH_SIZE);
      if done {
        var buflen := Low(FromLe(message) - LENGTH_SIZE);
        ghost var middle := read;
        done, rest := RecvAll(buflen);
        message := message + rest;
        assert stream[old(read)..middle] + stream[middle..read] == stream[old(read)..read];
      }
    }

    /** Reading back what the other end uploaded: either the calls run out, or the result is what
        was stored of the file and the stream is read exactly to the end of the upload. */
    method Download(ghost file: Option) returns (result: Transfer)
      requires read + |Uploaded(file)| <= |stream|
      requires stream[read..read + |Uploaded(file)|] == Uploaded(file)
      modifies this
      ensures result.Waiting? || (result == Stored(file) && read == old(read) + |Uploaded(file)|)
      ensures |Uploaded(file)| <= Busy(old(schedule)) ==> !result.Waiting?
    {
      ghost var size: nat := if file.Some? then |file.data| else 0;
      ghost var chunks := if file.Some? then ChunkMessages(file.data, AsInt(size)) else [];
      Splits(stream, read, SizeMessage(size), chunks);
      SizeKept(size);
      var done, fileSize := ReadSize(size);
      if !done {
        return Waiting;
      }
      if fileSize == 0 {
        return Missing;
      }
      var data: seq<byte>;
      done, data := DownloadChunks(fileSize, file.data);
      return if done then File(data) else Waiting;
    }

    /** The message with the size. */
    method ReadSize(ghost size: nat) returns (done: bool, fileSize: int)
      requires There(stream, read, SizeMessage(size))
      modifies this
      ensures read <= |stream|
      ensures done ==> fileSize == AsInt(size) && read == old(read) + |SizeMessage(size)|
      ensures |SizeMessage(size)| <= Busy(old(schedule))
              ==> done && Busy(old(schedule)) <= Busy(schedule) + |SizeMessage(size)|
    {
      ghost var first := Le(Low(size), LENGTH_SIZE);
      MessageThere(stream, read, first);
      var message: seq<byte>;
      done, message := RecvIps();
      fileSize := 0;
      if done {
        MessageRead(message, first);
        SizeField(size);
        fileSize := AsInt(FromLe(message[LENGTH_SIZE..2 * LENGTH_SIZE]));
      }
    }

    /** The chunks of a file of which `fileSize` bytes are announced. */
    method DownloadChunks(announced: int, ghost file: seq<byte>) returns (done: bool, data: seq<byte>)
      requires announced <= |file| && There(stream, read, ChunkMessages(file, announced))
      modifies this
      ensures read <= |stream|
      ensures done ==> data == Payload(file, announced) && read == old(read) + |ChunkMessages(file, announced)|
      ensures |ChunkMessages(file, announced)| <= Busy(old(schedule)) ==> done
    {
      hide ChunkMessages, Payload, Message, Busy;
      ghost var end := read + |ChunkMessages(file, announced)|;
      var fileSize := announced;
      done, data := true, [];
      ghost var at: nat := 0;
      assert file[0..] == file;
      while fileSize > 0
        invariant at <= |file| && fileSize <= |file| - at && done
        invariant There(stream, read, ChunkMessages(file[at..], fileSize))
        invariant read + |ChunkMessages(file[at..], fileSize)| == end
        invariant data + Payload(file[at..], fileSize) == Payload(file, announced)
        invariant end - old(read) <= Busy(old(schedule)) ==> end - read <= Busy(schedule)
        decreases |schedule|
      {
        NextMessageThere(stream, read, file, at, fileSize);
        ghost var n := Min(CHUNK, |file| - at);
        ghost var chunk := file[at..at + n];
        PayloadTaken(data, file, at, fileSize);
        var buflen: int, bytes: seq<byte>;
        done, buflen, bytes := ReadChunk(chunk);
        if !done {
          return;
        }
        fileSize := fileSize - buflen;
        data := data + bytes;
        at := at + n;
      }
      NothingLeft(file[at..], fileSize);
    }

    method ReadChunk(ghost chunk: seq<byte>) returns (done: bool, buflen: int, bytes: seq<byte>)
      requires There(stream, read, Message(chunk)) && 0 < |chunk| <= CHUNK
      modifies this
      ensures done ==> buflen == |chunk| && bytes == chunk && read == old(read) + LENGTH_SIZE + |chunk|
      ensures done ==> |schedule| < |old(schedule)|
      ensures read <= |stream|
      ensures LENGTH_SIZE + |chunk| <= Busy(old(schedule))
              ==> done && Busy(old(schedule)) <= Busy(schedule) + LENGTH_SIZE + |chunk|
    {
      MessageThere(stream, read, chunk);
      var message: seq<byte>;
      done, message := RecvIps();
      buflen, bytes := 0, [];
      if done {
        MessageRead(message, chunk);
        buflen := AsInt(FromLe(message[..LENGTH_SIZE])) - LENGTH_SIZE;
        bytes := message[LENGTH_SIZE..LENGTH_SIZE + buflen];
      }
    }
  }

  lemma {:induction false} PayloadTaken(data: seq<byte>, file: seq<byte>, at: nat, left: int)
    requires 0 < left <= |file| - at
    ensures var n := Min(CHUNK, |file| - at);
            data + Payload(file[at..], left) == (data + file[at..at + n]) + Payload(file[at + n..], left - n)
  {
    NextChunk(file, at, left);
    var n := Min(CHUNK, |file| - at);
    Regroup(data, file[at..at + n], Payload(file[at + n..], left - n));
  }

  /** Where the chunks from `at` on come next in the stream, the next message is that of a chunk. */
  lemma {:induction false} NextMessageThere(stream: seq<byte>, r: nat, file: seq<byte>, at: nat, left: int)
    requires 0 < left <= |file| - at && There(stream, r, ChunkMessages(file[at..], left))
    ensures var n := Min(CHUNK, |file| - at);
            && 0 < n && There(stream, r, Message(file[at..at + n]))
            && There(stream, r + LENGTH_SIZE + n, ChunkMessages(file[at + n..], left - n))
            && |ChunkMessages(file[at..], left)| == LENGTH_SIZE + n + |ChunkMessages(file[at + n..], left - n)|
  {
    NextChunk(file, at, left);
    var n := Min(CHUNK, |file| - at);
    Splits(stream, r, Message(file[at..at + n]), ChunkMessages(file[at + n..], left - n));
  }

  predicate There(stream: seq<byte>, at: nat, s: seq<byte>) {
    at + |s| <= |stream| && stream[at..at + |s|] == s
  }

  lemma Splits(stream: seq<byte>, at: nat, a: seq<byte>, b: seq<byte>)
    requires There(stream, at, a + b)
    ensures There(stream, at, a) && There(stream, at + |a|, b)
  {
    assert stream[at..at + |a + b|][..|a|] == stream[at..at + |a|];
    assert stream[at..at + |a + b|][|a|..] == stream[at + |a|..at + |a| + |b|];
  }

  lemma {:induction false} LengthField(n: nat)
    requires n < 0x1_0000_0000
    ensures FromLe(Le(n, LENGTH_SIZE)) == n
  {
    FieldWidths();
    LeRoundTrip(n, LENGTH_SIZE);
  }

  lemma SmallInt(n: nat)
    requires n < INT_LIMIT
    ensures AsInt(n) == n == Low(n)
  {
  }

  lemma MessageThere(stream: seq<byte>, at: nat, payload: seq<byte>)
    requires There(stream, at, Message(payload)) && |payload| <= CHUNK
    ensures FrameLength(stream[at..at + LENGTH_SIZE]) == |Message(payload)|
  {
    LengthField(LENGTH_SIZE + |payload|);
    assert stream[at..at + LENGTH_SIZE] == Message(payload)[..LENGTH_SIZE] == Le(LENGTH_SIZE + |payload|, LENGTH_SIZE);
    LengthIs(stream[at..at + LENGTH_SIZE], |payload|);
  }

  lemma {:induction false} LengthIs(prefix: seq<byte>, n: nat)
    requires n <= CHUNK && FromLe(prefix) == LENGTH_SIZE + n
    ensures FrameLength(prefix) == LENGTH_SIZE + n
  {
    SmallInt(n);
  }

  lemma MessageRead(message: seq<byte>, payload: seq<byte>)
    requires message == Message(payload) && |payload| <= CHUNK
    ensures AsInt(FromLe(message[..LENGTH_SIZE])) == |message|
    ensures message[LENGTH_SIZE..|message|] == payload
  {
    LengthField(LENGTH_SIZE + |payload|);
    SmallInt(|message|);
    assert message[..LENGTH_SIZE] == Le(LENGTH_SIZE + |payload|, LENGTH_SIZE);
  }

  lemma SizeField(size: nat)
    ensures AsInt(FromLe(Le(Low(size), LENGTH_SIZE))) == AsInt(size)
  {
    LengthField(Low(size));
    ModTwice(size);
  }

  lemma SizeKept(size: nat)
    ensures Low(AsInt(size)) == Low(size) && AsInt(size) <= size
  {
    ModTwice(size);
  }

  lemma ModTwice(n: nat)
    ensures Low(Low(n)) == Low(n) <= n
  {
    var low := Low(n);
    assert low / 0x1_0000_0000 == 0;
  }

  // ---- The transfer ----

  lemma {:induction false} PayloadIsPrefix(file: seq<byte>, left: int)
    requires left <= |file|
    ensures Payload(file, left) <= file
    ensures left <= |Payload(file, left)| < (if left < 0 then 0 else left) + CHUNK
    ensures left == |file| ==> Payload(file, left) == file
    decreases |file|
  {
    if left > 0 {
      var n := Min(CHUNK, |file|);
      if left > n {
        PayloadIsPrefix(file[n..], left - n);
      }
      assert file == file[..n] + file[n..];
    }
  }

  /** A length that does not even count itself makes the reader wait for almost 2^32 bytes. */
  lemma {:induction false} FrameLengthExactly(prefix: seq<byte>)
    requires |prefix| == LENGTH_SIZE
    ensures var n := FromLe(prefix); FrameLength(prefix) == if n >= LENGTH_SIZE then n else 0x1_0000_0000 + n
  {
    hide FromLe, Values;
    FieldWidths();
    FieldHolds(prefix);
    ModOfSmall(FromLe(prefix));
  }

  lemma ModOfSmall(n: nat)
    requires n < 0x1_0000_0000
    ensures LENGTH_SIZE + Low(n - LENGTH_SIZE) == if n >= LENGTH_SIZE then n else 0x1_0000_0000 + n
  {
  }

  /** What is stored of a file too long for the size field goes by the low 32 bits of its size: nothing
      if they are 0, an empty file if they are negative, and otherwise as many bytes, to the end of a
      chunk, of the file. */
  lemma {:induction false} LongFile(file: seq<byte>)
    requires |file| >= INT_LIMIT
    ensures var size, stored := |file| % 0x1_0000_0000, Stored(Some(file));
            if size == 0 then stored == Missing
            else if size >= INT_LIMIT then stored == File([])
            else stored.File? && stored.data <= file && size <= |stored.data| < size + CHUNK
  {
    PayloadIsPrefix(file, AsInt(|file|));
    LowIsLess(|file|);
  }

  lemma LowIsLess(n: nat)
    ensures AsInt(n) <= n
  {
    SizeKept(n);
  }

  /** A file arrives as it was exactly when it has between 1 and 2^31 - 1 bytes. An empty one is
      reported missing, and so is one that cannot be opened. */
  lemma TransferExactly(file: seq<byte>)
    ensures Stored(Some(file)) == File(file) <==> 0 < |file| < INT_LIMIT
    ensures Stored(Some([])) == Stored(None) == Missing
  {
    var size := AsInt(|file|);
    PayloadIsPrefix(file, size);
  }
}
