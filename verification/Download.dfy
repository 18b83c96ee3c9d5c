/** Downloading an image with retries, into a file or straight onto a device, with the hash
    computed on the way.  What the server sends and whether writes succeed is up to the
    environment; the hash object is the data it has been fed and an uninterpreted digest. */
module Download {
  import opened Wrappers

  type byte = n: nat | n < 256

  datatype WriteOutcome = Written | NoSpace | IoError

  /** One item of the response: its bytes (possibly none), whether it is text instead of bytes,
      the time when it arrives, and what a write of it would do. */
  datatype Chunk = Chunk(bytes: seq<byte>, text: bool, now: real, write: WriteOutcome)

  /** What one attempt meets. */
  datatype Attempt =
    | Unavailable                   // no URL could be opened: ImageDownloadError
    | Refused                       // ImageDownloadFatalError
    | Unusable                      // any other error before the transfer
    | Response(chunks: seq<Chunk>, complete: bool, expected: string)

  datatype Failure = DownloadError | OutOfSpaceError | FatalError | ChecksumError | OtherError

  datatype Config = Config(retries: nat, maxDuration: real, connectionTimeout: real)

  predicate Retryable(f: Failure) {
    f == DownloadError || f == ChecksumError
  }

  /** The file or device that is written. */
  class Target {
    var content: seq<byte>
    var position: nat

    constructor (content: seq<byte>)
      ensures this.content == content && position == 0
    {
      this.content, position := content, 0;
    }

    predicate Valid()
      reads this
    {
      position <= |content|
    }

    /** Opening a file for writing truncates it, opening a device does not. */
    method Open(truncate: bool)
      modifies this
      ensures Valid() && position == 0 && content == if truncate then [] else old(content)
    {
      position := 0;
      if truncate { content := []; }
    }

    method Write(bytes: seq<byte>)
      requires Valid()
      modifies this
      ensures Valid() && position == old(position) + |bytes|
      ensures content[..position] == old(content[..position]) + bytes
      ensures if position <= |old(content)| then content[position..] == old(content)[position..]
              else position == |content|
    {
      var end := position + |bytes|;
      content := content[..position] + bytes + (if end <= |content| then content[end..] else []);
      position := end;
    }
  }

  /** The image download object: the fields its iterator updates. */
  class ImageDownload {
    const chunks: seq<Chunk>
    var next: nat
    var hashed: seq<byte>             // what the hash object has been fed
    var bytesTransferred: nat
    var lastChunkTime: Option<real>

    constructor (chunks: seq<Chunk>)
      ensures this.chunks == chunks && next == 0 && hashed == [] && bytesTransferred == 0 && lastChunkTime == None
    {
      this.chunks := chunks;
      next, hashed, bytesTransferred, lastChunkTime := 0, [], 0, None;
    }

    /** Handles one item of the response: None for an error, otherwise whether it is yielded. */
    method Step(config: Config, start: real) returns (yielded: Option<bool>)
      requires next < |chunks|
      modifies this
      ensures next == old(next) + 1
      ensures var c := chunks[old(next)];
              var added := if yielded == Some(true) then c.bytes else [];
              && yielded == Handled(c, old(lastChunkTime), config, start)
              && hashed == old(hashed) + added && bytesTransferred == old(bytesTransferred) + |added|
              && lastChunkTime == if yielded == Some(true) then Some(c.now) else old(lastChunkTime)
    {
      var chunk := chunks[next];
      next := next + 1;
      if config.maxDuration != 0.0 && chunk.now - start > config.maxDuration { return None; }
      if chunk.bytes != [] {
        lastChunkTime := Some(chunk.now);
        hashed := hashed + chunk.bytes;
        bytesTransferred := bytesTransferred + |chunk.bytes|;
        return Some(true);
      }
      if lastChunkTime.None? || chunk.now - lastChunkTime.value > config.connectionTimeout { return None; }
      return Some(false);
    }
  }

  function Handled(c: Chunk, lastChunkTime: Option<real>, config: Config, start: real): Option<bool> {
    if config.maxDuration != 0.0 && c.now - start > config.maxDuration then None
    else if c.bytes != [] then Some(true)
    else if lastChunkTime.None? || c.now - lastChunkTime.value > config.connectionTimeout then None
    else Some(false)
  }

  /** All the bytes of a response. */
  function Payload(chunks: seq<Chunk>): seq<byte> {
    if chunks == [] then [] else Payload(chunks[..|chunks| - 1]) + chunks[|chunks| - 1].bytes
  }

  /** How the transfer of the rest of a response ends: None when it reaches the end. */
  function Transfer(chunks: seq<Chunk>, complete: bool, lastChunkTime: Option<real>, config: Config, start: real,
      toFile: bool)
    : Option<Failure>
  {
    if chunks == [] then (if complete then None else Some(DownloadError)) else
      var c := chunks[0];
      match Handled(c, lastChunkTime, config, start)
      case None => Some(DownloadError)
      case Some(false) => Transfer(chunks[1..], complete, lastChunkTime, config, start, toFile)
      case Some(true) =>
        if c.text || c.write == IoError then Some(DownloadError)
        else if c.write == NoSpace then Some(if toFile then OutOfSpaceError else DownloadError)
        else Transfer(chunks[1..], complete, Some(c.now), config, start, toFile)
  }

  /** How an attempt ends: None when the image is there and verified. */
  function Outcome(a: Attempt, config: Config, start: real, toFile: bool, digest: seq<byte> -> string)
    : Option<Failure>
  {
    match a
    case Unavailable => Some(DownloadError)
    case Refused => Some(FatalError)
    case Unusable => Some(OtherError)
    case Response(chunks, complete, expected) =>
      var t := Transfer(chunks, complete, None, config, start, toFile);
      if t.Some? then t else if digest(Payload(chunks)) == expected then None else Some(ChecksumError)
  }

  // ----- What an attempt meets, item by item -----

  predicate InTime(c: Chunk, config: Config, start: real) {
    config.maxDuration == 0.0 || c.now - start <= config.maxDuration
  }

  /** Item j is the last one before k that has any bytes. */
  predicate LastBytes(chunks: seq<Chunk>, j: nat, k: nat)
    requires k <= |chunks|
  {
    j < k && chunks[j].bytes != [] && forall i :: j < i < k ==> chunks[i].bytes == []
  }

  predicate NotTooLate(chunks: seq<Chunk>, j: nat, k: nat, config: Config)
    requires k < |chunks|
  {
    LastBytes(chunks, j, k) && chunks[k].now - chunks[j].now <= config.connectionTimeout
  }

  /** Item k is taken in: it comes in time and its bytes are written, or it has none and does not come too late
      after the last bytes. */
  ghost predicate Taken(chunks: seq<Chunk>, k: nat, config: Config, start: real)
    requires k < |chunks|
  {
    var c := chunks[k];
    && InTime(c, config, start)
    && (if c.bytes != [] then !c.text && c.write == Written
        else exists j: nat :: j < k && NotTooLate(chunks, j, k, config))
  }

  ghost predicate TakenUpTo(chunks: seq<Chunk>, from: nat, k: nat, config: Config, start: real)
    requires k <= |chunks|
  {
    forall j: nat :: from <= j < k ==> Taken(chunks, j, config, start)
  }

  /** The write of item k finds no space. */
  predicate FullAt(chunks: seq<Chunk>, k: nat, config: Config, start: real)
    requires k < |chunks|
  {
    var c := chunks[k];
    InTime(c, config, start) && c.bytes != [] && !c.text && c.write == NoSpace
  }

  ghost predicate FullFrom(chunks: seq<Chunk>, from: nat, config: Config, start: real) {
    exists k: nat :: from <= k < |chunks| && FullAt(chunks, k, config, start) &&
      TakenUpTo(chunks, from, k, config, start)
  }

  /** The time of the last bytes before item i. */
  ghost predicate LastTime(chunks: seq<Chunk>, i: nat, last: Option<real>)
    requires i <= |chunks|
  {
    if last.None? then forall j :: 0 <= j < i ==> chunks[j].bytes == []
    else exists j: nat :: LastBytes(chunks, j, i) && last == Some(chunks[j].now)
  }

  lemma {:induction false} HandledMeaning(chunks: seq<Chunk>, i: nat, last: Option<real>, config: Config, start: real)
    requires i < |chunks| && LastTime(chunks, i, last)
    ensures var h, c := Handled(chunks[i], last, config, start), chunks[i];
            && (Taken(chunks, i, config, start) <==>
                  h == Some(false) || (h == Some(true) && !c.text && c.write == Written))
            && (FullAt(chunks, i, config, start) <==> h == Some(true) && !c.text && c.write == NoSpace)
    ensures Handled(chunks[i], last, config, start) == Some(true) ==> LastTime(chunks, i + 1, Some(chunks[i].now))
    ensures Handled(chunks[i], last, config, start) == Some(false) ==> LastTime(chunks, i + 1, last)
  {
    var h := Handled(chunks[i], last, config, start);
    if h == Some(true) {
      assert LastBytes(chunks, i, i + 1);
    } else if last.Some? {
      var j: nat :| LastBytes(chunks, j, i) && last == Some(chunks[j].now);
      if h == Some(false) {
        assert LastBytes(chunks, j, i + 1) && NotTooLate(chunks, j, i, config);
      }
      forall k: nat | LastBytes(chunks, k, i) ensures k == j { }
    }
  }

  lemma {:induction false} TransferFrom(chunks: seq<Chunk>, i: nat, last: Option<real>, complete: bool, config: Config,
      start: real, toFile: bool)
    requires i <= |chunks| && LastTime(chunks, i, last)
    ensures var t := Transfer(chunks[i..], complete, last, config, start, toFile);
            && (t.None? <==> complete && TakenUpTo(chunks, i, |chunks|, config, start))
            && (t == Some(OutOfSpaceError) <==> toFile && FullFrom(chunks, i, config, start))
            && t in {None, Some(DownloadError), Some(OutOfSpaceError)}
    decreases |chunks| - i
  {
    if i < |chunks| {
      var c, h := chunks[i], Handled(chunks[i], last, config, start);
      assert chunks[i..][1..] == chunks[i + 1..];
      HandledMeaning(chunks, i, last, config, start);
      FullMore(chunks, i, config, start);
      if Taken(chunks, i, config, start) {
        TransferFrom(chunks, i + 1, if h == Some(true) then Some(c.now) else last, complete, config, start, toFile);
      }
    }
  }

  lemma {:induction false} FullMore(chunks: seq<Chunk>, i: nat, config: Config, start: real)
    requires i < |chunks|
    ensures FullFrom(chunks, i, config, start) <==>
      FullAt(chunks, i, config, start) || (Taken(chunks, i, config, start) && FullFrom(chunks, i + 1, config, start))
  {
    if FullAt(chunks, i, config, start) {
      assert TakenUpTo(chunks, i, i, config, start);
    } else if Taken(chunks, i, config, start) && FullFrom(chunks, i + 1, config, start) {
      var k: nat :| i + 1 <= k < |chunks| && FullAt(chunks, k, config, start) &&
        TakenUpTo(chunks, i + 1, k, config, start);
      assert TakenUpTo(chunks, i, k, config, start);
    }
    forall k: nat | i < k < |chunks| && TakenUpTo(chunks, i, k, config, start)
      ensures Taken(chunks, i, config, start) && TakenUpTo(chunks, i + 1, k, config, start)
    {
    }
  }

  /** An attempt that a full disk ends; a device has no such end. */
  ghost predicate Full(a: Attempt, config: Config, start: real, toFile: bool) {
    toFile && a.Response? && FullFrom(a.chunks, 0, config, start)
  }

  /** An attempt that brings the whole image, with the expected digest. */
  ghost predicate Delivers(a: Attempt, config: Config, start: real, digest: seq<byte> -> string) {
    && a.Response? && a.complete && TakenUpTo(a.chunks, 0, |a.chunks|, config, start)
    && digest(Payload(a.chunks)) == a.expected
  }

  /** How an attempt ends, told from what it meets: it delivers the image, or the disk is full, or it is refused, or
      something else goes wrong before the transfer; all other ends may be retried. */
  lemma {:induction false} OutcomeMeaning(a: Attempt, config: Config, start: real, toFile: bool,
      digest: seq<byte> -> string)
    ensures var f := Outcome(a, config, start, toFile, digest);
            && (f.None? <==> Delivers(a, config, start, digest))
            && (f == Some(OutOfSpaceError) <==> Full(a, config, start, toFile))
            && (f == Some(FatalError) <==> a.Refused?)
            && (f == Some(OtherError) <==> a.Unusable?)
            && (f == Some(ChecksumError) <==>
                  a.Response? && a.complete && TakenUpTo(a.chunks, 0, |a.chunks|, config, start) &&
                  digest(Payload(a.chunks)) != a.expected)
  {
    if a.Response? {
      assert a.chunks[0..] == a.chunks;
      TransferFrom(a.chunks, 0, None, a.complete, config, start, toFile);
    }
  }

  /** An attempt that is not repeated: it delivers the image, or fails for good. */
  ghost predicate Ends(a: Attempt, config: Config, start: real, toFile: bool, digest: seq<byte> -> string) {
    Delivers(a, config, start, digest) || Full(a, config, start, toFile) || a.Refused? || a.Unusable?
  }

  // ----- The methods -----

  /** Writes the chunks as they come. */
  method TransferAll(image: ImageDownload, target: Target, complete: bool, config: Config, start: real, toFile: bool)
    returns (failure: Option<Failure>)
    requires target.Valid() && target.position == 0 && (toFile ==> target.content == [])
    requires image.next == 0 && image.hashed == [] && image.bytesTransferred == 0 && image.lastChunkTime == None
    modifies image, target
    ensures failure == Transfer(image.chunks, complete, None, config, start, toFile)
    ensures failure.None? ==>
      target.Valid() && target.content[..target.position] == Payload(image.chunks) == image.hashed
    ensures failure.None? ==> image.bytesTransferred == target.position
    ensures failure.None? && toFile ==> target.position == |target.content|
    ensures |target.content| >= |old(target.content)|
  {
    while image.next < |image.chunks|
      invariant image.next <= |image.chunks| && target.Valid()
      invariant target.content[..target.position] == Payload(image.chunks[..image.next]) == image.hashed
      invariant image.bytesTransferred == target.position
      invariant (toFile ==> target.position == |target.content|) && |target.content| >= |old(target.content)|
      invariant Transfer(image.chunks, complete, None, config, start, toFile) ==
                Transfer(image.chunks[image.next..], complete, image.lastChunkTime, config, start, toFile)
    {
      var chunk := image.chunks[image.next];
      assert image.chunks[image.next..][1..] == image.chunks[image.next + 1..];
      assert image.chunks[..image.next + 1][..image.next] == image.chunks[..image.next];
      var yielded := image.Step(config, start);
      if yielded.None? { return Some(DownloadError); }
      if yielded.value {
        if chunk.text || chunk.write == IoError { return Some(DownloadError); }
        if chunk.write == NoSpace { return Some(if toFile then OutOfSpaceError else DownloadError); }
        target.Write(chunk.bytes);
      }
    }
    assert image.chunks[..|image.chunks|] == image.chunks;
    return if complete then None else Some(DownloadError);
  }

  /** One attempt: construct, open, transfer, verify. */
  method Fetch(a: Attempt, target: Target, config: Config, start: real, toFile: bool, digest: seq<byte> -> string)
    returns (failure: Option<Failure>, bytesTransferred: nat)
    modifies target
    ensures failure == Outcome(a, config, start, toFile, digest)
    ensures failure.None? ==>
      && a.Response? && bytesTransferred == |Payload(a.chunks)| <= |target.content|
      && target.content[..bytesTransferred] == Payload(a.chunks) &&
        digest(target.content[..bytesTransferred]) == a.expected
      && (toFile ==> target.content == Payload(a.chunks))
    ensures !toFile ==> |target.content| >= |old(target.content)|
  {
    bytesTransferred := 0;
    match a
    case Unavailable => return Some(DownloadError), 0;
    case Refused => return Some(FatalError), 0;
    case Unusable => return Some(OtherError), 0;
    case Response(chunks, complete, expected) =>
      var image := new ImageDownload(chunks);
      target.Open(toFile);
      failure := TransferAll(image, target, complete, config, start, toFile);
      if failure.None? {
        if digest(image.hashed) != expected { failure := Some(ChecksumError); }
        bytesTransferred := image.bytesTransferred;
      }
  }

  /** The retry loop, for both forms.  `tried` counts the attempts. */
  method Download(attempts: nat -> Attempt, target: Target, config: Config, start: real, toFile: bool,
      digest: seq<byte> -> string)
    returns (failure: Option<Failure>, tried: nat, bytesTransferred: nat)
    modifies target
    ensures 1 <= tried <= config.retries + 1
    ensures failure == Outcome(attempts(tried - 1), config, start, toFile, digest)
    ensures forall k :: 0 <= k < tried - 1 ==>
      Outcome(attempts(k), config, start, toFile, digest).Some? &&
        Retryable(Outcome(attempts(k), config, start, toFile, digest).value)
    ensures failure.Some? && Retryable(failure.value) ==> tried == config.retries + 1
    ensures forall k :: 0 <= k < tried - 1 ==> !Ends(attempts(k), config, start, toFile, digest)
    ensures tried == config.retries + 1 || Ends(attempts(tried - 1), config, start, toFile, digest)
    ensures failure.None? <==> Delivers(attempts(tried - 1), config, start, digest)
    ensures failure == Some(OutOfSpaceError) <==> Full(attempts(tried - 1), config, start, toFile)
    ensures failure == Some(FatalError) <==> attempts(tried - 1).Refused?
    ensures failure.None? ==>
      var a := attempts(tried - 1);
      && a.Response? && bytesTransferred == |Payload(a.chunks)| <= |target.content|
      && target.content[..bytesTransferred] == Payload(a.chunks) &&
        digest(target.content[..bytesTransferred]) == a.expected
      && (toFile ==> target.content == Payload(a.chunks))
    ensures !toFile ==> |target.content| >= |old(target.content)|
  {
    tried, failure, bytesTransferred := 0, None, 0;
    while tried <= config.retries
      invariant tried <= config.retries + 1 && (!toFile ==> |target.content| >= |old(target.content)|)
      invariant tried > config.retries ==>
        tried > 0 && failure.Some? && failure == Outcome(attempts(tried - 1), config, start, toFile, digest)
      invariant forall k :: 0 <= k < tried ==>
        Outcome(attempts(k), config, start, toFile, digest).Some? &&
          Retryable(Outcome(attempts(k), config, start, toFile, digest).value)
      invariant forall k :: 0 <= k < tried ==> !Ends(attempts(k), config, start, toFile, digest)
      invariant tried > config.retries ==> failure.Some? && failure.value !in {OutOfSpaceError, FatalError}
      decreases config.retries + 1 - tried
    {
      OutcomeMeaning(attempts(tried), config, start, toFile, digest);
      failure, bytesTransferred := Fetch(attempts(tried), target, config, start, toFile, digest);
      tried := tried + 1;
      if failure.None? || !Retryable(failure.value) { return; }
    }
  }
}
