/** The sending application of examples/tcp/tcp-large-transfer.cc: a callback-driven sender that reads a
    cyclic buffer and copes with partial and refused sends. */
module BytePump {

  type Byte = b: int | 0 <= b < 256

  const TOTAL_TX_BYTES: nat := 2000000
  const WRITE_SIZE: nat := 1040

  /** Byte i of the endless stream a, b, ..., z, a, b, ... */
  function Letter(i: nat): Byte {
    97 + i % 26
  }

  /** s is the alphabet over and over again, as far as it goes. */
  ghost predicate IsAlphabet(s: seq<Byte>) {
    forall i :: 0 <= i < |s| ==> IsLetterOfAlphabet(s[i], i)
  }

  ghost predicate IsLetterOfAlphabet(b: int, i: nat) {
    b == "abcdefghijklmnopqrstuvwxyz"[i % 26] as int
  }

  /** The same, letter by letter: an a first, behind a letter the next one, and an a again behind a z. */
  ghost predicate GoesRound(s: seq<Byte>) {
    && (s != [] ==> s[0] == 'a' as int)
    && (forall i :: 0 < i < |s| ==> Follows(s[i - 1], s[i]))
  }

  ghost predicate Follows(b: int, next: int) {
    if b == 'z' as int then next == 'a' as int else next == b + 1
  }

  lemma LetterOfAlphabet(i: nat)
    ensures IsLetterOfAlphabet(Letter(i), i)
  {
  }

  lemma LetterFollows(i: nat)
    requires i > 0
    ensures Follows(Letter(i - 1), Letter(i))
  {
    assert i % 26 == if (i - 1) % 26 == 25 then 0 else (i - 1) % 26 + 1;
  }

  lemma StreamIsAlphabet(n: nat)
    ensures IsAlphabet(Stream(n)) && GoesRound(Stream(n))
  {
    assert Letter(0) == 'a' as int;
    hide IsLetterOfAlphabet, Follows, Letter;
    forall i | 0 <= i < n ensures IsLetterOfAlphabet(Stream(n)[i], i) {
      LetterOfAlphabet(i);
    }
    forall i | 0 < i < n ensures Follows(Stream(n)[i - 1], Stream(n)[i]) {
      LetterFollows(i);
    }
  }

  /** The first n bytes of that stream. */
  function Stream(n: nat): (s: seq<Byte>)
    ensures |s| == n && forall i :: 0 <= i < n ==> s[i] == Letter(i)
  {
    seq(n, i requires 0 <= i < n => Letter(i))
  }

  /** The buffer can be reused from the start because its size is a multiple of the period. */
  lemma LetterInBuffer(sent: nat, j: nat)
    ensures Letter(sent % WRITE_SIZE + j) == Letter(sent + j)
  {
    var q := sent / WRITE_SIZE;
    assert sent == WRITE_SIZE * q + sent % WRITE_SIZE;
    assert sent + j == 26 * (40 * q) + (sent % WRITE_SIZE + j);
    ModuloShift(sent % WRITE_SIZE + j, 40 * q);
  }

  lemma {:induction false} ModuloShift(x: nat, k: nat)
    ensures (26 * k + x) % 26 == x % 26
  {
    if k > 0 {
      ModuloShift(x, k - 1);
    }
  }

  /** What was sent continues the stream by as many bytes as the socket took from the buffer. */
  lemma StreamGrows(sent: nat, slice: seq<Byte>)
    requires forall j :: 0 <= j < |slice| ==> slice[j] == Letter(sent % WRITE_SIZE + j)
    ensures Stream(sent) + slice == Stream(sent + |slice|)
  {
    forall i | 0 <= i < sent + |slice| ensures (Stream(sent) + slice)[i] == Stream(sent + |slice|)[i] {
      if i >= sent {
        LetterInBuffer(sent, i - sent);
      }
    }
  }

  /** History: what a call of Send offered, after how many accepted bytes and with how much room. */
  datatype Offer = Offer(position: nat, size: nat, room: nat) {

    /** Not too much, and as much as a single call can: the offer ends with the stream, with the buffer or
        with the room. */
    ghost predicate Maximal() {
      && 0 < size <= room && position + size <= TOTAL_TX_BYTES
      && (position + size == TOTAL_TX_BYTES || (position + size) % WRITE_SIZE == 0 || size == room)
    }
  }

  /** The least of the three limits. */
  lemma OfferIsMaximal(position: nat, size: nat, room: nat)
    requires position < TOTAL_TX_BYTES && room > 0
    requires size <= WRITE_SIZE - position % WRITE_SIZE && size <= TOTAL_TX_BYTES - position && size <= room
    requires size == WRITE_SIZE - position % WRITE_SIZE || size == TOTAL_TX_BYTES - position || size == room
    ensures Offer(position, size, room).Maximal()
  {
    NextMultiple(position, size);
  }

  lemma NextMultiple(position: nat, size: nat)
    ensures size == WRITE_SIZE - position % WRITE_SIZE ==> (position + size) % WRITE_SIZE == 0
  {
  }

  /** The local socket.  How much room it has and how much it takes is up to the network; it takes
      nothing it was not given, and if it takes anything it takes at least one byte. */
  class Socket {
    var txAvailable: nat
    var accepted: seq<Byte>
    var closes: nat
    ghost var offers: seq<Offer>

    constructor (txAvailable: nat)
      ensures this.txAvailable == txAvailable && accepted == [] && closes == 0 && offers == []
    {
      this.txAvailable, accepted, closes, offers := txAvailable, [], 0, [];
    }

    /** `Send(&data[offset], size, 0)`, for no more than there is room. */
    method Send(data: array<Byte>, offset: nat, size: nat) returns (amount: int)
      requires 0 < size <= txAvailable && offset + size <= data.Length
      modifies this`txAvailable, this`accepted, this`offers
      ensures amount < 0 || 1 <= amount <= size
      ensures accepted == old(accepted) + if amount < 0 then [] else data[offset..offset + amount]
      ensures offers == old(offers) + [Offer(|old(accepted)|, size, old(txAvailable))]
    {
      offers := offers + [Offer(|accepted|, size, txAvailable)];
      txAvailable := *;
      amount := *;
      if !(1 <= amount <= size) {
        amount := -1;
      }
      if amount > 0 {
        accepted := accepted + data[offset..offset + amount];
      }
    }

    method Close()
      modifies this`closes
      ensures closes == old(closes) + 1
    {
      closes := closes + 1;
    }
  }

  class Application {
    const data: array<Byte>
    const socket: Socket
    var currentTxBytes: nat

    ghost predicate Valid()
      reads this, data, socket
    {
      && data.Length == WRITE_SIZE
      && (forall i :: 0 <= i < WRITE_SIZE ==> data[i] == Letter(i))
      && currentTxBytes <= TOTAL_TX_BYTES
      && socket.accepted == Stream(currentTxBytes)
      && (socket.closes > 0 ==> currentTxBytes == TOTAL_TX_BYTES)
      && forall i :: 0 <= i < |socket.offers| ==> socket.offers[i].Maximal()
    }

    constructor (socket: Socket)
      requires socket.accepted == [] && socket.closes == 0 && socket.offers == []
      ensures Valid() && fresh(data) && this.socket == socket && currentTxBytes == 0
      ensures data.Length == 1040 && IsAlphabet(data[..]) && GoesRound(data[..])
    {
      this.socket := socket;
      data := new Byte[WRITE_SIZE];
      currentTxBytes := 0;
      new;
      for i := 0 to WRITE_SIZE
        modifies data
        invariant forall j :: 0 <= j < i ==> data[j] == Letter(j)
      {
        data[i] := 97 + i % 26;
      }
      assert data[..] == Stream(WRITE_SIZE);
      StreamIsAlphabet(WRITE_SIZE);
    }

    /** The callback.  Whatever the socket does, what it has accepted is the beginning of the stream;
        Close is called exactly when all of it is.  progress tells whether a byte was sent; without a
        refusal the callback ends only with everything sent or no room left. */
    method WriteUntilBufferFull() returns (progress: bool, refused: bool)
      requires Valid()
      modifies this`currentTxBytes, socket
      ensures Valid()
      ensures progress <==> currentTxBytes > old(currentTxBytes)
      ensures currentTxBytes >= old(currentTxBytes)
      ensures !refused ==> currentTxBytes == TOTAL_TX_BYTES || socket.txAvailable == 0
      ensures refused ==> currentTxBytes < TOTAL_TX_BYTES
      ensures !progress ==> refused || old(currentTxBytes) == TOTAL_TX_BYTES || old(socket.txAvailable) == 0
      ensures socket.closes == old(socket.closes) + if currentTxBytes == TOTAL_TX_BYTES then 1 else 0
      ensures IsAlphabet(socket.accepted) && GoesRound(socket.accepted) && |socket.accepted| <= 2000000
      ensures socket.closes > old(socket.closes) <==> |socket.accepted| == 2000000
    {
      hide Letter, Stream, Offer.Maximal;
      progress, refused := false, false;
      while currentTxBytes < TOTAL_TX_BYTES && socket.txAvailable > 0
        invariant Valid() && socket.closes == old(socket.closes)
        invariant currentTxBytes >= old(currentTxBytes)
        invariant progress <==> currentTxBytes > old(currentTxBytes)
        invariant !progress ==> socket.txAvailable == old(socket.txAvailable)
        decreases TOTAL_TX_BYTES - currentTxBytes
      {
        var left := TOTAL_TX_BYTES - currentTxBytes;
        var dataOffset := currentTxBytes % WRITE_SIZE;
        var toWrite := WRITE_SIZE - dataOffset;
        toWrite := if toWrite < left then toWrite else left;
        toWrite := if toWrite < socket.txAvailable then toWrite else socket.txAvailable;
        OfferIsMaximal(currentTxBytes, toWrite, socket.txAvailable);
        var amountSent := socket.Send(data, dataOffset, toWrite);
        if amountSent < 0 {
          refused := true;
          StreamIsAlphabet(currentTxBytes);
          return;
        }
        StreamGrows(currentTxBytes, data[dataOffset..dataOffset + amountSent]);
        currentTxBytes := currentTxBytes + amountSent;
        progress := true;
      }
      if currentTxBytes >= TOTAL_TX_BYTES {
        socket.Close();
      }
      StreamIsAlphabet(currentTxBytes);
    }

    /** A whole flow: the first write and one callback for each announcement of room.  However the socket
        behaves, it ends with the beginning of the stream sent, and every callback that was not stalled
        has brought it at least one byte further. */
    method StartFlow(announcements: seq<nat>) returns (stalls: nat)
      requires Valid()
      modifies this`currentTxBytes, socket
      ensures Valid()
      ensures stalls <= |announcements| + 1
      ensures currentTxBytes == TOTAL_TX_BYTES || currentTxBytes >= |announcements| + 1 - stalls
      ensures socket.closes > old(socket.closes) <==> currentTxBytes == TOTAL_TX_BYTES
      ensures IsAlphabet(socket.accepted) && GoesRound(socket.accepted) && |socket.accepted| <= 2000000
      ensures socket.closes > old(socket.closes) <==> |socket.accepted| == 2000000
    {
      var progress, refused := WriteUntilBufferFull();
      stalls := if progress then 0 else 1;
      for i := 0 to |announcements|
        invariant Valid()
        invariant stalls <= i + 1
        invariant currentTxBytes == TOTAL_TX_BYTES || currentTxBytes >= i + 1 - stalls
        invariant socket.closes >= old(socket.closes)
        invariant socket.closes > old(socket.closes) <==> currentTxBytes == TOTAL_TX_BYTES
      {
        socket.txAvailable := announcements[i];
        progress, refused := WriteUntilBufferFull();
        if !progress {
          stalls := stalls + 1;
        }
      }
      StreamIsAlphabet(currentTxBytes);
    }
  }
}
