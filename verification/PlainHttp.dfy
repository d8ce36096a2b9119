/**
 * A plain HTTP connection (include/connection.hpp) and a read task run by itself
 * (src/servers/http.cpp).
 */
module PlainHttp {
  import opened Options
  import opened Bits
  import opened Responses

  /** What the user's handler makes of a request: serialized headers, and a channel of buffers. */
  datatype Reply = Reply(headers: seq<uint8>, buffers: seq<Buffer>)

  class Connection {
    var refs: int
    var closed: bool
    var wire: seq<uint8>

    constructor ()
      ensures refs == 0 && !closed && wire == []
    {
      refs, closed, wire := 0, false, [];
    }

    method Take()
      modifies this`refs
      ensures refs == old(refs) + 1
    {
      refs := refs + 1;
    }

    method Release()
      modifies this`refs
      ensures refs == old(refs) - 1
    {
      refs := refs - 1;
    }

    method Close()
      modifies this`closed
      ensures closed
    {
      closed := true;
    }

    method Write(what: seq<uint8>)
      modifies this`wire
      ensures wire == old(wire) + what
    {
      wire := wire + what;
    }

    /**
     * The read task that the event loop has dispatched, and for which it has taken a reference.  `bytes` is
     * what the read returned, and `reply` what a request parsed from it is answered with, if one is.
     */
    method OnRead(bytes: int, reply: Option<Reply>)
      requires reply.Some? ==> Ends(reply.value.buffers)
      modifies this
      ensures refs == old(refs) - 1
      ensures closed <==> old(closed) || bytes < 1
      ensures wire == old(wire) + if bytes < 1 || reply.None? then []
                                  else reply.value.headers + Content(reply.value.buffers)
    {
      if bytes < 1 {
        Release();
        Close();
        return;
      }
      if reply.Some? {
        Take();
        Write(reply.value.headers);
        WriteBody(reply.value.buffers);
        Associate(old(wire), reply.value.headers, Content(reply.value.buffers));
        Release();
      }
      Release();
    }

    /** Writes buffers until one is last. */
    method WriteBody(buffers: seq<Buffer>)
      requires Ends(buffers)
      modifies this`wire
      ensures wire == old(wire) + Content(buffers)
    {
      hide Content;
      var i := 0;
      var slice := buffers[0];
      assert buffers[0..] == buffers;
      NextContent(wire, buffers);
      Write(slice.data);
      while !slice.last
        invariant i < |buffers| && slice == buffers[i] && Ends(buffers[i..])
        invariant old(wire) + Content(buffers) == wire + if slice.last then [] else Content(buffers[i..][1..])
        decreases |buffers| - i
      {
        assert buffers[i..][1..] == buffers[i + 1..];
        i := i + 1;
        slice := buffers[i];
        NextContent(wire, buffers[i..]);
        Write(slice.data);
      }
    }
  }

  lemma NextContent(before: seq<uint8>, buffers: seq<Buffer>)
    requires Ends(buffers)
    ensures before + Content(buffers) == before + buffers[0].data + if buffers[0].last then [] else Content(buffers[1..])
  {
    Associate(before, buffers[0].data, if buffers[0].last then [] else Content(buffers[1..]));
  }
}
