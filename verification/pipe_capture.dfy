/** Bounded readers: what they keep of a stream does not depend on how the stream is cut into reads. */
module PipeCapture {
  import opened Wrappers
  import opened Seqs
  import opened Utf8

  datatype Capture = Unlimited | Truncate(limit: nat) | HardLimit(limit: nat)

  datatype PipeReadResult = PipeReadResult(bytes: seq<Byte>, exceededLimit: Option<nat>)

  /** Reading the stream failed. */
  datatype ReadError = ReadError

  const BUFFER_LEN := 8192

  function Concat(chunks: seq<seq<Byte>>): seq<Byte> {
    if chunks == [] then [] else chunks[0] + Concat(chunks[1..])
  }

  function Prefix(data: seq<Byte>, limit: nat): seq<Byte> {
    if |data| <= limit then data else data[..limit]
  }

  /** What a capture policy keeps of a whole stream. */
  function Kept(policy: Capture, data: seq<Byte>): seq<Byte> {
    match policy
    case Unlimited => data
    case Truncate(limit) => Prefix(data, limit)
    case HardLimit(limit) => Prefix(data, limit)
  }

  predicate Exceeds(policy: Capture, data: seq<Byte>) {
    policy.HardLimit? && policy.limit < |data|
  }

  /** A stream that still has some reads to deliver and then ends, or fails. A read delivers at least one byte
      and at most a buffer full. */
  class Pipe {
    var chunks: seq<seq<Byte>>
    const fails: bool

    constructor (chunks: seq<seq<Byte>>, fails: bool)
      requires forall i :: 0 <= i < |chunks| ==> 1 <= |chunks[i]| <= BUFFER_LEN
      ensures this.chunks == chunks && this.fails == fails && Valid()
    {
      this.chunks := chunks;
      this.fails := fails;
    }

    predicate Valid()
      reads this
    {
      forall i :: 0 <= i < |chunks| ==> 1 <= |chunks[i]| <= BUFFER_LEN
    }

    /** An empty read is the end of the stream. */
    method Read() returns (r: Result<seq<Byte>, ReadError>)
      requires Valid()
      modifies this
      ensures Valid()
      ensures old(chunks) == [] ==> chunks == [] && r == if fails then Failure(ReadError) else Success([])
      ensures old(chunks) != [] ==> chunks == old(chunks)[1..] && r == Success(old(chunks)[0]) && r.value != []
    {
      if chunks == [] { return if fails then Failure(ReadError) else Success([]); }
      r := Success(chunks[0]);
      chunks := chunks[1..];
    }
  }

  lemma PrefixGrows(data: seq<Byte>, chunk: seq<Byte>, limit: nat)
    ensures var kept := Prefix(data, limit);
            var remaining := limit - |kept|;
            0 <= remaining && Prefix(data + chunk, limit) == kept + Prefix(chunk, remaining)
  {
    if |data| <= limit && limit < |data| + |chunk| {
      assert (data + chunk)[..limit] == data + chunk[..limit - |data|];
    }
  }

  lemma ConcatHead(seen: seq<Byte>, chunks: seq<seq<Byte>>)
    requires chunks != []
    ensures seen + Concat(chunks) == (seen + chunks[0]) + Concat(chunks[1..])
  {
    ConcatAssociates(seen, chunks[0], Concat(chunks[1..]));
  }

  /** Every split of a stream into reads gives the same result: the kept bytes, and an excess exactly when a hard
      limit is smaller than the stream. Without an excess the pipe is drained to its end. */
  method ReadPipe(pipe: Pipe, policy: Capture) returns (r: Result<PipeReadResult, ReadError>)
    requires pipe.Valid()
    modifies pipe
    ensures var data := Concat(old(pipe.chunks));
            r == if Exceeds(policy, data) then Success(PipeReadResult(Kept(policy, data), Some(policy.limit)))
                 else if pipe.fails then Failure(ReadError)
                 else Success(PipeReadResult(Kept(policy, data), None))
    ensures !Exceeds(policy, Concat(old(pipe.chunks))) ==> pipe.chunks == []
  {
    var bytes: seq<Byte> := [];
    ghost var data := Concat(pipe.chunks);
    ghost var seen: seq<Byte> := [];
    while true
      invariant pipe.Valid() && data == seen + Concat(pipe.chunks)
      invariant bytes == Kept(policy, seen) && !Exceeds(policy, seen)
      decreases |pipe.chunks|
    {
      ghost var before := pipe.chunks;
      if before != [] { ConcatHead(seen, before); }
      var read := pipe.Read();
      if read.Failure? { return Failure(read.error); }
      var chunk := read.value;
      if chunk == [] {
        assert data == seen;
        return Success(PipeReadResult(bytes, None));
      }
      match policy {
        case Unlimited =>
          bytes := bytes + chunk;
        case Truncate(limit) =>
          PrefixGrows(seen, chunk, limit);
          var remaining := limit - |bytes|;
          bytes := bytes + if |chunk| < remaining then chunk else chunk[..remaining];
        case HardLimit(limit) =>
          PrefixGrows(seen, chunk, limit);
          var remaining := limit - |bytes|;
          bytes := bytes + if |chunk| < remaining then chunk else chunk[..remaining];
          if remaining < |chunk| {
            assert data[..limit] == (seen + chunk)[..limit];
            return Success(PipeReadResult(bytes, Some(limit)));
          }
      }
      seen := seen + chunk;
    }
  }

  /** `read_bounded_lossy_response_body`: reads chunks, possibly empty ones, only while the body is below the limit. */
  method ReadBoundedLossyBody(chunks: seq<seq<Byte>>, fails: bool, limit: nat) returns (r: Result<seq<Byte>, ReadError>)
    ensures var data := Concat(chunks);
            r == if |data| < limit && fails then Failure(ReadError) else Success(LossyText(Kept(Truncate(limit), data)))
  {
    var body: seq<Byte> := [];
    var next := 0;
    ghost var seen: seq<Byte> := [];
    assert chunks[0..] == chunks;
    while |body| < limit
      invariant next <= |chunks| && Concat(chunks) == seen + Concat(chunks[next..]) && body == Prefix(seen, limit)
      decreases |chunks| - next
    {
      if next == |chunks| {
        assert Concat(chunks) == seen;
        if fails { return Failure(ReadError); }
        return Success(LossyText(body));
      }
      var chunk := chunks[next];
      ConcatHead(seen, chunks[next..]);
      assert chunks[next..][1..] == chunks[next + 1..];
      next := next + 1;
      PrefixGrows(seen, chunk, limit);
      seen := seen + chunk;
      var remaining := limit - |body|;
      if remaining < |chunk| {
        body := body + chunk[..remaining];
        break;
      }
      body := body + chunk;
    }
    PrefixGrows(seen, Concat(chunks[next..]), limit);
    assert body + [] == body;
    return Success(LossyText(body));
  }
}
