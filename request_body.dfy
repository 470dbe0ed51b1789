/** The two collaborators of the upload loop, reduced to what the loop can
    observe. The request body stream is the bytes the client still delivers,
    and a list of caps on how many bytes the transport hands over at each
    read (a read may return fewer bytes than asked for; 0 means the stream
    has ended, possibly early). The multipart parser is an uninterpreted function
    from its boundary and the bytes fed to it so far to the current file
    name: its grammar is not part of this model. */
module RequestBody {
  import opened Int32

  type byte = x: int | 0 <= x < 256

  /** How many bytes a read that asks for `count` returns. */
  function ReadLength(rest: seq<byte>, caps: seq<nat>, count: nat): (n: nat)
    ensures n <= count && n <= |rest|
    ensures caps == [] ==> n == Min(count, |rest|)
    ensures caps != [] ==> n == Min(Min(count, |rest|), caps[0])
  {
    var available := Min(count, |rest|);
    if caps == [] then available else Min(available, caps[0])
  }

  function NextCaps(caps: seq<nat>): seq<nat>
  {
    if caps == [] then [] else caps[1..]
  }

  class BodyStream {
    /** The bytes still to be delivered before the stream ends. */
    var rest: seq<byte>
    /** The most bytes each successive read hands over; [] puts no cap. */
    var caps: seq<nat>

    constructor (body: seq<byte>, caps: seq<nat>)
      ensures rest == body && this.caps == caps
    {
      rest := body;
      this.caps := caps;
    }

    /** `ReadAsync(buffer, 0, count)`: copies the next bytes into the front
        of the buffer and returns how many, never more than `count`. */
    method ReadAsync(buffer: array<byte>, count: int) returns (n: int)
      requires 0 <= count <= buffer.Length
      modifies this, buffer
      ensures n == ReadLength(old(rest), old(caps), count)
      ensures buffer[..n] == old(rest)[..n]
      ensures rest == old(rest)[n..] && caps == NextCaps(old(caps))
    {
      n := ReadLength(rest, caps, count);
      forall i | 0 <= i < n {
        buffer[i] := rest[i];
      }
      rest := rest[n..];
      caps := NextCaps(caps);
    }
  }

  class FileUploadRequestParser {
    const boundary: string
    /** The parser's file-name extraction, as a function of its boundary and
        of all bytes fed so far (so a header split across chunks is seen
        once its last byte arrives). */
    const scan: (string, seq<byte>) -> string
    var fed: seq<byte>

    constructor (boundary: string, scan: (string, seq<byte>) -> string)
      ensures this.boundary == boundary && this.scan == scan && fed == []
    {
      this.boundary := boundary;
      this.scan := scan;
      fed := [];
    }

    function CurrentFileName(): string
      reads this
    {
      scan(boundary, fed)
    }

    /** `ParseNext(buffer, count)`: feeds the first `count` buffer bytes. */
    method ParseNext(buffer: array<byte>, count: int)
      requires 0 <= count <= buffer.Length
      modifies this
      ensures fed == old(fed) + buffer[..count]
    {
      fed := fed + buffer[..count];
    }
  }
}
