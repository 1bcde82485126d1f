/**
 * The part of Node's HTTP response object that the handler uses:
 * `writeHead(status[, headers])` and `end(body)`.
 */
module NodeHttp {
  import opened NodeFs

  datatype Header = Header(name: string, value: string)

  /** A body is either raw bytes (a `Buffer`) or a string. */
  datatype Body = Bytes(data: seq<byte>) | Text(text: string)

  /** A complete response: status, the headers given to `writeHead`, and the body given to `end`. */
  datatype Response = Response(status: int, headers: seq<Header>, body: Body)

  /** One call made on the response object. */
  datatype ResponseEvent = HeadWritten(status: int, headers: seq<Header>) | Ended(body: Body)

  /**
   * A response being written, recorded as the calls made on it.  The status
   * line can be written once, and nothing can be written after `end`.
   */
  class ServerResponse {
    var events: seq<ResponseEvent>

    constructor ()
      ensures events == []
    {
      events := [];
    }

    ghost predicate HeadersSent()
      reads this
    {
      exists i :: 0 <= i < |events| && events[i].HeadWritten?
    }

    ghost predicate Finished()
      reads this
    {
      exists i :: 0 <= i < |events| && events[i].Ended?
    }

    method WriteHead(status: int, headers: seq<Header>)
      requires !HeadersSent() && !Finished()
      modifies this
      ensures events == old(events) + [HeadWritten(status, headers)]
      ensures HeadersSent() && !Finished()
    {
      events := events + [HeadWritten(status, headers)];
      assert events[|events| - 1].HeadWritten?;
    }

    method End(body: Body)
      requires !Finished()
      modifies this
      ensures events == old(events) + [Ended(body)]
      ensures Finished() && HeadersSent() == old(HeadersSent())
    {
      events := events + [Ended(body)];
      assert events[|events| - 1].Ended?;
      assert forall i :: 0 <= i < |old(events)| ==> events[i] == old(events)[i];
    }
  }
}
