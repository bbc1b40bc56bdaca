/** The part of a Node `net.Socket` the server uses: writing bytes and ending the write side. */
module Net {
  import opened Utf8

  class Socket {
    /** Every byte written so far, in order. */
    var output: seq<Byte>
    /** Whether `end()` has been called. */
    var ended: bool

    constructor ()
      ensures output == [] && !ended
    {
      output := [];
      ended := false;
    }

    /**
     * `socket.write(data)`. Once the socket has been ended, Node reports a
     * write-after-end error and sends nothing.
     */
    method Write(data: seq<Byte>)
      modifies this
      ensures ended == old(ended)
      ensures output == if old(ended) then old(output) else old(output) + data
    {
      if !ended {
        output := output + data;
      }
    }

    /** `socket.end()`: closes the write side; ending twice changes nothing. */
    method End()
      modifies this
      ensures ended && output == old(output)
    {
      ended := true;
    }
  }
}
