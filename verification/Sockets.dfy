/** One end of a stream connection. What the network answers to the coming calls is a script fixed in advance, so
    that a method's outcome for every script is its outcome under every chunking; a script that runs out is the
    end of the observed run. */
module Sockets {
  import opened Words

  /** The longest message that leaves in one piece: a greeting. */
  const SMALL: nat := 22

  /** At least n more calls, none of which fails, and which move long messages in whatever pieces, but short ones
      whole. */
  predicate Generous(script: seq<int>, n: int) {
    n <= |script| && forall i :: 0 <= i < |script| ==> script[i] >= SMALL
  }

  lemma GenerousCall(script: seq<int>, n: int)
    requires Generous(script, n) && n > 0
    ensures Generous(script, 1)
  {
  }

  /** A call that moves at least one byte is one of the calls that moving n bytes may take. */
  lemma GenerousAfter(script: seq<int>, n: int, moved: int)
    requires Generous(script, n) && n > 0 && moved > 0
    ensures script != [] && Generous(script[1..], n - moved)
  {
  }

  lemma GenerousAll(script: seq<int>, n: int)
    requires Generous(script, n)
    ensures n <= |script| && Generous(script, |script|)
  {
  }

  class Socket {
    /** Bytes the peer has sent and this end has not received yet; bytes this end has sent. */
    var incoming: seq<byte>
    var outgoing: seq<byte>
    var script: seq<int>
    var live: bool

    constructor (incoming: seq<byte>, script: seq<int>)
      ensures this.incoming == incoming && outgoing == [] && this.script == script && live
    {
      this.incoming, outgoing, this.script, live := incoming, [], script, true;
    }

    /** recv: a negative error, 0 at the end of the stream, or a non-empty piece of what has arrived. */
    method Recv(want: int) returns (got: int, data: seq<byte>)
      modifies this
      ensures outgoing == old(outgoing) && live == old(live)
      ensures old(incoming) == data + incoming
      ensures if got > 0 then |data| == got <= want else data == []
      ensures !live ==> got < 0
      ensures script == if old(script) == [] then [] else old(script)[1..]
      ensures old(script) == [] ==> got <= 0
      ensures live && Generous(old(script), 1) && 0 < want <= |old(incoming)| ==>
                got > 0 && (want <= SMALL ==> got == want)
    {
      got, data := 0, [];
      if script == [] {
        if !live { got := -1; }
        return;
      }
      var k := script[0];
      script := script[1..];
      if !live || k < 0 { return -1, []; }
      got := if k < want then k else want;
      if got > |incoming| { got := |incoming|; }
      if got <= 0 { return 0, []; }
      data := incoming[..got];
      incoming := incoming[got..];
    }

    /** send of a longer message: an error, after which the connection is gone, or a non-empty start of it. */
    method Send(data: seq<byte>) returns (sent: int)
      modifies this
      ensures incoming == old(incoming)
      ensures if sent > 0 then sent <= |data| && outgoing == old(outgoing) + data[..sent] && live && old(live)
              else outgoing == old(outgoing) && !live
      ensures sent > 0 ==> old(script) != [] && script == old(script)[1..]
      ensures old(live) && Generous(old(script), 1) && data != [] ==> sent > 0
    {
      if live && script != [] && script[0] > 0 && data != [] {
        sent := if script[0] < |data| then script[0] else |data|;
        script := script[1..];
        outgoing := outgoing + data[..sent];
      } else {
        live := false;
        sent := -1;
      }
    }

    /** send of a short message: an error, or all of it. */
    method SendSmall(data: seq<byte>) returns (sent: int)
      requires 0 < |data| <= SMALL
      modifies this
      ensures incoming == old(incoming)
      ensures if sent > 0 then sent == |data| && outgoing == old(outgoing) + data && live && old(live)
              else outgoing == old(outgoing) && !live
      ensures sent > 0 ==> old(script) != [] && script == old(script)[1..]
      ensures old(live) && Generous(old(script), 1) ==> sent == |data|
    {
      if live && script != [] && script[0] > 0 {
        sent := |data|;
        script := script[1..];
        outgoing := outgoing + data;
      } else {
        live := false;
        sent := -1;
      }
    }

    method Close()
      modifies this
      ensures incoming == old(incoming) && outgoing == old(outgoing) && script == old(script) && !live
    {
      live := false;
    }
  }

  /** A piece as long as the message, at the start of a stream that starts with the message, is the message. */
  lemma WholePiece(stream: seq<byte>, piece: seq<byte>, left: seq<byte>, msg: seq<byte>, rest: seq<byte>)
    requires stream == piece + left && stream <= msg + rest
    ensures |piece| <= |msg| ==> piece <= msg && left <= msg[|piece|..] + rest
    ensures |piece| == |msg| ==> piece == msg && left <= rest
  {
    if |piece| <= |msg| {
      assert piece == stream[..|piece|] == (msg + rest)[..|piece|] == msg[..|piece|];
      assert left == stream[|piece|..];
      assert (msg + rest)[|piece|..] == msg[|piece|..] + rest;
      assert left == (msg + rest)[|piece|..|stream|] == (msg[|piece|..] + rest)[..|left|];
    }
  }
}
