/**
  The large-transfer sender: it writes a repeating pattern into a socket whose buffer space, acceptance and
  refusals are arbitrary, and closes the socket at the end.
*/
module BytePump {

  const TotalTxBytes: nat := 2000000
  const WriteSize: nat := 1040

  /** The byte at position `k` of the stream. */
  function Pattern(k: nat): int { 'a' as int + k % 26 }

  ghost predicate Patterned(s: seq<int>) { forall k: nat | k < |s| :: s[k] == Pattern(k) }

  lemma PatternRepeats(k: nat, q: nat)
    ensures Pattern(k + 26 * q) == Pattern(k)
  {
  }

  /** The buffer holds a whole number of alphabets. */
  lemma PatternShift(k: nat, n: nat)
    ensures Pattern(k % WriteSize + n) == Pattern(k + n)
  {
    var q := k / WriteSize;
    assert k == WriteSize * q + k % WriteSize;
    PatternRepeats(k % WriteSize + n, 40 * q);
  }

  /** Bytes from the right place of the buffer continue the stream. */
  lemma PatternContinues(stream: seq<int>, buffer: seq<int>, n: nat)
    requires Patterned(stream) && Patterned(buffer) && |stream| % WriteSize + n <= |buffer|
    ensures Patterned(stream + buffer[|stream| % WriteSize..][..n])
  {
    var o := |stream| % WriteSize;
    var more := buffer[o..][..n];
    forall k: nat | k < |stream| + n ensures (stream + more)[k] == Pattern(k) {
      if k >= |stream| {
        assert (stream + more)[k] == more[k - |stream|] == buffer[o + (k - |stream|)];
        PatternShift(|stream|, k - |stream|);
      }
    }
  }

  /** The socket; its answers are arbitrary, but it does not accept nothing for ever. */
  class Socket {
    var txAvailable: nat
    /** How many more sends in a row may accept nothing; arbitrary again after each other answer. */
    var stalls: nat
    ghost var accepted: seq<int>
    ghost var closed: bool
    /** How often a send was refused, and how much was offered in each send, refused or not. */
    ghost var refusals: nat
    ghost var offers: seq<nat>

    constructor (space: nat, stalls: nat)
      ensures txAvailable == space && accepted == [] && !closed && refusals == 0 && offers == []
    {
      txAvailable, this.stalls, accepted, closed, refusals, offers := space, stalls, [], false, 0, [];
    }

    /** A negative number, or how many bytes were taken from the front of what is offered. */
    method Send(data: array<int>, offset: nat, size: nat) returns (amountSent: int)
      requires 0 < size && offset + size <= data.Length && !closed
      modifies this
      ensures !closed && amountSent <= size && (amountSent == 0 ==> stalls < old(stalls))
      ensures accepted == if amountSent < 0 then old(accepted)
                          else old(accepted) + data[..][offset..][..amountSent]
      ensures refusals == old(refusals) + (if amountSent < 0 then 1 else 0) && offers == old(offers) + [size]
    {
      amountSent := *;
      if amountSent > size || (amountSent == 0 && stalls == 0) {
        amountSent := -1;
      }
      offers := offers + [size];
      if amountSent < 0 {
        refusals := refusals + 1;
      }
      if amountSent == 0 {
        stalls := stalls - 1;
      } else {
        stalls := *;
      }
      if amountSent >= 0 {
        accepted := accepted + data[..][offset..][..amountSent];
      }
      txAvailable := *;
    }

    method Close()
      modifies this
      ensures closed && accepted == old(accepted) && txAvailable == old(txAvailable)
      ensures refusals == old(refusals) && offers == old(offers)
    {
      closed := true;
    }
  }

  class Sender {
    const data: array<int>
    const socket: Socket
    var currentTxBytes: nat

    ghost predicate Valid()
      reads this, data, socket
    {
      && data.Length == WriteSize && Patterned(data[..])
      && currentTxBytes == |socket.accepted| <= TotalTxBytes
      && Patterned(socket.accepted)
      && (socket.closed ==> currentTxBytes == TotalTxBytes)
    }

    /** The buffer initialisation of `main`. */
    constructor (space: nat, stalls: nat)
      ensures Valid() && fresh(socket) && fresh(data) && currentTxBytes == 0 && !socket.closed
    {
      data := new int[WriteSize];
      socket := new Socket(space, stalls);
      currentTxBytes := 0;
      new;
      for i := 0 to WriteSize
        invariant currentTxBytes == 0 && socket.accepted == [] && !socket.closed
        invariant forall k | 0 <= k < i :: data[k] == Pattern(k)
      {
        data[i] := 'a' as int + i % 26;
      }
    }

    /** The least of what is left, what the buffer holds from here on, and the space of the socket. */
    function Offer(): nat
      requires currentTxBytes <= TotalTxBytes
      reads this, socket
    {
      var left := TotalTxBytes - currentTxBytes;
      var inBuffer := WriteSize - currentTxBytes % WriteSize;
      var fits := if left < inBuffer then left else inBuffer;
      if socket.txAvailable < fits then socket.txAvailable else fits
    }

    /** One turn of the loop, safe whatever the socket answers. */
    method WriteOnce() returns (amountSent: int)
      requires Valid() && currentTxBytes < TotalTxBytes && socket.txAvailable > 0
      modifies this, socket
      ensures Valid() && !socket.closed && old(socket.accepted) <= socket.accepted
      ensures currentTxBytes == old(currentTxBytes) + if amountSent < 0 then 0 else amountSent
      ensures amountSent <= 0 ==> socket.accepted == old(socket.accepted)
      ensures amountSent == 0 ==> socket.stalls < old(socket.stalls)
      ensures socket.offers == old(socket.offers) + [old(Offer())] && amountSent <= old(Offer())
      ensures socket.refusals == old(socket.refusals) + if amountSent < 0 then 1 else 0
    {
      var left := TotalTxBytes - currentTxBytes;
      var dataOffset := currentTxBytes % WriteSize;
      var toWrite := WriteSize - dataOffset;
      toWrite := if left < toWrite then left else toWrite;
      toWrite := if socket.txAvailable < toWrite then socket.txAvailable else toWrite;
      ghost var before := socket.accepted;
      amountSent := socket.Send(data, dataOffset, toWrite);
      if amountSent < 0 {
        return;
      }
      PatternContinues(before, data[..], amountSent);
      currentTxBytes := currentTxBytes + amountSent;
    }

    /** The send callback: write until the buffer is full, a send is refused, or everything was accepted. */
    method WriteUntilBufferFull()
      requires Valid()
      modifies this, socket
      ensures Valid() && old(socket.accepted) <= socket.accepted
      ensures socket.closed <==> currentTxBytes == TotalTxBytes
      ensures currentTxBytes == TotalTxBytes || socket.txAvailable == 0 || socket.refusals > old(socket.refusals)
      ensures old(socket.refusals) <= socket.refusals <= old(socket.refusals) + 1
      ensures old(currentTxBytes) < TotalTxBytes && old(socket.txAvailable) > 0 ==>
                old(socket.offers) + [old(Offer())] <= socket.offers
    {
      while currentTxBytes < TotalTxBytes && socket.txAvailable > 0
        invariant Valid() && old(socket.accepted) <= socket.accepted && old(socket.refusals) == socket.refusals
        invariant if socket.offers == old(socket.offers)
                  then currentTxBytes == old(currentTxBytes) && socket.txAvailable == old(socket.txAvailable)
                  else old(currentTxBytes) < TotalTxBytes && old(socket.txAvailable) > 0
                       && old(socket.offers) + [old(Offer())] <= socket.offers
        decreases TotalTxBytes - currentTxBytes, socket.stalls
      {
        var amountSent := WriteOnce();
        if amountSent < 0 {
          return;
        }
      }
      if currentTxBytes >= TotalTxBytes {
        socket.Close();
      }
    }

    /** Any sequence of send callbacks, each finding some buffer space; and why the last one ended. */
    method Drive(spaces: seq<nat>)
      requires Valid()
      modifies this, socket
      ensures Valid() && old(socket.accepted) <= socket.accepted
      ensures spaces != [] ==> (socket.closed <==> currentTxBytes == TotalTxBytes)
      ensures spaces != [] ==>
                currentTxBytes == TotalTxBytes || socket.txAvailable == 0 || socket.refusals > old(socket.refusals)
    {
      for i := 0 to |spaces|
        invariant Valid() && old(socket.accepted) <= socket.accepted && socket.refusals >= old(socket.refusals)
        invariant i > 0 ==> (socket.closed <==> currentTxBytes == TotalTxBytes)
        invariant i > 0 ==>
                    currentTxBytes == TotalTxBytes || socket.txAvailable == 0 || socket.refusals > old(socket.refusals)
      {
        socket.txAvailable := spaces[i];
        WriteUntilBufferFull();
      }
    }
  }
}
