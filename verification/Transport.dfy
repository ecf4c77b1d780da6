/**
 The socket: a chooser of how many bytes each call moves.
 */
module Transport {
  import opened Bytes

  /** What one call did: moved some bytes, returned 0, or failed, recoverably or not. */
  datatype Io = Moved(n: nat) | Closed | TryAgain | Broken

  class Socket {
    /** Bytes that have arrived and are not read yet. */
    var incoming: seq<byte>
    /** All bytes written so far. */
    var outgoing: seq<byte>
    /** What the last call did. */
    var last: Io

    constructor () {
      incoming, outgoing, last := [], [], TryAgain;
    }

    /** The last call found the connection broken. */
    predicate Down()
      reads this`last
    {
      last.Closed? || last.Broken?
    }

    method Write(bytes: seq<byte>) returns (io: Io)
      requires bytes != []
      modifies this`outgoing, this`last
      ensures last == io
      ensures io.Moved? ==> 1 <= io.n <= |bytes| && outgoing == old(outgoing) + bytes[..io.n]
      ensures !io.Moved? ==> outgoing == old(outgoing)
    {
      if {
        case true => io := TryAgain;
        case true => io := Broken;
        case true => io := Closed;
        case true =>
          var n: nat :| 1 <= n <= |bytes|;
          outgoing := outgoing + bytes[..n];
          io := Moved(n);
      }
      last := io;
    }

    method Read(max: nat) returns (io: Io, bytes: seq<byte>)
      requires max > 0
      modifies this`incoming, this`last
      ensures last == io
      ensures io.Moved? ==> 1 <= io.n <= max && io.n == |bytes| && old(incoming) == bytes + incoming
      ensures !io.Moved? ==> incoming == old(incoming)
    {
      bytes := [];
      if {
        case true => io := TryAgain;
        case true => io := Broken;
        case true => io := Closed;
        case incoming != [] =>
          var n: nat :| 1 <= n <= max && n <= |incoming|;
          bytes, incoming := incoming[..n], incoming[n..];
          io := Moved(n);
      }
      last := io;
    }
  }
}
