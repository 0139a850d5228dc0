/** Buffering a request body under a size limit and replaying it (backend/core/security.py). */
module BodyLimit {
  type Byte = bv8

  datatype Message = HttpRequest(body: seq<Byte>, moreBody: bool) | Disconnect | Other(moreBody: bool)

  predicate IsLast(m: Message) { m.Disconnect? || !m.moreBody }

  datatype Buffered = Waiting | TooLarge | Complete(messages: seq<Message>)

  function BodySize(m: Message): nat { if m.HttpRequest? then |m.body| else 0 }

  /** Body bytes in the first n messages. */
  function Received(stream: seq<Message>, n: nat): nat
    requires n <= |stream|
  {
    if n == 0 then 0 else Received(stream, n - 1) + BodySize(stream[n - 1])
  }

  /** No message among the first n ends the body, and no body chunk among them exceeds the limit. */
  ghost predicate Open(stream: seq<Message>, n: nat, limit: int)
    requires n <= |stream|
  {
    forall j :: 0 <= j < n ==> !IsLast(stream[j]) && !Overflows(stream, j, limit)
  }

  predicate Overflows(stream: seq<Message>, j: nat, limit: int)
    requires j < |stream|
  {
    stream[j].HttpRequest? && Received(stream, j + 1) > limit
  }

  /** Reads until the last message, or rejects at the first chunk beyond the limit; messages that have not
      arrived yet leave it waiting. */
  method BufferBody(stream: seq<Message>, limit: int) returns (r: Buffered)
    ensures r.Waiting? <==> Open(stream, |stream|, limit)
    ensures r.TooLarge? <==> exists j :: 0 <= j < |stream| && Open(stream, j, limit) && Overflows(stream, j, limit)
    ensures r.Complete? ==> exists j :: 0 <= j < |stream| && Open(stream, j, limit) && IsLast(stream[j]) &&
                                        !Overflows(stream, j, limit) && r.messages == stream[..j + 1]
  {
    var received, messages := 0, [];
    for n := 0 to |stream|
      invariant received == Received(stream, n) && messages == stream[..n]
      invariant Open(stream, n, limit)
    {
      var message := stream[n];
      if message.HttpRequest? {
        received := received + |message.body|;
        if received > limit {
          assert Overflows(stream, n, limit);
          return TooLarge;
        }
      }
      messages := messages + [message];
      if IsLast(message) {
        assert messages == stream[..n + 1];
        forall j | 0 <= j < |stream| && Open(stream, j, limit) ensures !Overflows(stream, j, limit) {
          if j > n {
            LastMessageCloses(stream, n, j, limit);
          }
        }
        return Complete(messages);
      }
    }
    return Waiting;
  }

  lemma LastMessageCloses(stream: seq<Message>, n: nat, j: nat, limit: int)
    requires n < j <= |stream| && IsLast(stream[n])
    ensures !Open(stream, j, limit)
  {}

  /** What the n-th receive of the application gets. */
  function Served(messages: seq<Message>, n: nat): Message {
    if n < |messages| then messages[n] else HttpRequest([], false)
  }

  class Replay {
    const messages: seq<Message>
    var messageIndex: nat
    ghost var served: nat

    ghost predicate Valid()
      reads this
    {
      messageIndex == (if served < |messages| then served else |messages|)
    }

    constructor (messages: seq<Message>)
      ensures Valid() && served == 0 && this.messages == messages
    {
      this.messages := messages;
      messageIndex, served := 0, 0;
    }

    method ReceiveBuffered() returns (m: Message)
      requires Valid()
      modifies this
      ensures Valid() && served == old(served) + 1 && m == Served(messages, old(served))
    {
      if messageIndex < |messages| {
        m := messages[messageIndex];
        messageIndex := messageIndex + 1;
      } else {
        m := HttpRequest([], false);
      }
      served := served + 1;
    }
  }

  /** The body an application assembles from its first n receives. */
  function Assembled(messages: seq<Message>, n: nat): seq<Byte> {
    if n == 0 then []
    else Assembled(messages, n - 1) +
         (if Served(messages, n - 1).HttpRequest? then Served(messages, n - 1).body else [])
  }

  lemma {:induction false} AssembledSize(stream: seq<Message>, n: nat, messages: seq<Message>)
    requires n <= |stream| && n <= |messages| && messages[..n] == stream[..n]
    ensures |Assembled(messages, n)| == Received(stream, n)
  {
    if n > 0 {
      assert messages[..n - 1] == messages[..n][..n - 1] && stream[..n - 1] == stream[..n][..n - 1];
      assert messages[n - 1] == messages[..n][n - 1] == stream[n - 1];
      AssembledSize(stream, n - 1, messages);
    }
  }

  lemma {:induction false} ReceivedWithinLimit(stream: seq<Message>, n: nat, limit: int)
    requires n <= |stream| && limit >= 0 && forall j :: 0 <= j < n ==> !Overflows(stream, j, limit)
    ensures Received(stream, n) <= limit
  {
    if n > 0 {
      ReceivedWithinLimit(stream, n - 1, limit);
      assert !Overflows(stream, n - 1, limit);
    }
  }

  lemma {:induction false} NothingAfterTheEnd(messages: seq<Message>, n: nat)
    requires n >= |messages|
    ensures Assembled(messages, n) == Assembled(messages, |messages|)
  {
    if n > |messages| {
      NothingAfterTheEnd(messages, n - 1);
    }
  }

  function Chunk(m: Message): seq<Byte> { if m.HttpRequest? then m.body else [] }

  /** The bytes of the request chunks among the messages. */
  ghost function BodyOf(messages: seq<Message>): seq<Byte> {
    if messages == [] then []
    else Chunk(messages[0]) + BodyOf(messages[1..])
  }

  lemma {:induction false} BodyAppends(messages: seq<Message>, m: Message)
    ensures BodyOf(messages + [m]) == BodyOf(messages) + Chunk(m)
  {
    hide Chunk;
    if messages == [] {
      assert ([] + [m])[1..] == [];
    } else {
      var first, rest := messages[0], messages[1..];
      assert (messages + [m])[1..] == rest + [m];
      BodyAppends(rest, m);
      Concatenated(Chunk(first), BodyOf(rest), Chunk(m));
    }
  }

  lemma Concatenated(a: seq<Byte>, b: seq<Byte>, c: seq<Byte>)
    ensures a + (b + c) == (a + b) + c
  {}

  lemma {:induction false} ReceivedIsTheBody(stream: seq<Message>, n: nat)
    requires n <= |stream|
    ensures Received(stream, n) == |BodyOf(stream[..n])|
  {
    if n > 0 {
      ReceivedIsTheBody(stream, n - 1);
      assert stream[..n] == stream[..n - 1] + [stream[n - 1]];
      BodyAppends(stream[..n - 1], stream[n - 1]);
    }
  }

  lemma {:induction false} ReceivedGrows(stream: seq<Message>, m: nat, n: nat)
    requires m <= n <= |stream|
    ensures Received(stream, m) <= Received(stream, n)
  {
    if m < n {
      ReceivedGrows(stream, m, n - 1);
    }
  }

  /** j is the first message that is a disconnect or announces no more body. */
  ghost predicate EndsAt(stream: seq<Message>, j: nat) {
    && j < |stream| && (stream[j].Disconnect? || !stream[j].moreBody)
    && forall k :: 0 <= k < j ==> !stream[k].Disconnect? && stream[k].moreBody
  }

  /** A request whose body ends is passed on exactly when the whole body is within the limit, and rejected exactly when
      it is not; a limit below 0 rejects the first chunk. */
  lemma PassedExactlyWhenWithinTheLimit(stream: seq<Message>, j: nat, limit: int)
    requires EndsAt(stream, j)
    ensures var within := |BodyOf(stream[..j + 1])| <= limit || forall k :: 0 <= k <= j ==> !stream[k].HttpRequest?;
            && (Open(stream, j, limit) && !Overflows(stream, j, limit) <==> within)
            && ((exists k :: 0 <= k < |stream| && Open(stream, k, limit) && Overflows(stream, k, limit)) <==> !within)
  {
    ReceivedIsTheBody(stream, j + 1);
    forall n: nat | n <= j + 1 ensures Received(stream, n) <= Received(stream, j + 1) {
      ReceivedGrows(stream, n, j + 1);
    }
    forall k | j < k < |stream| ensures !Open(stream, k, limit) {
      LastMessageCloses(stream, j, k, limit);
    }
    if !(Open(stream, j, limit) && !Overflows(stream, j, limit)) {
      FirstOverflow(stream, j, limit);
    } else if k :| 0 <= k <= j && stream[k].HttpRequest? {
      LastChunkHasAll(stream, j, k);
    }
  }

  /** Some chunk overflows, so a first one does. */
  lemma {:induction false} FirstOverflow(stream: seq<Message>, j: nat, limit: int)
    requires j < |stream| && (forall k :: 0 <= k < j ==> !IsLast(stream[k]))
    requires !(Open(stream, j, limit) && !Overflows(stream, j, limit))
    ensures exists k :: 0 <= k <= j && Open(stream, k, limit) && Overflows(stream, k, limit)
  {
    if !Open(stream, j, limit) {
      var k :| 0 <= k < j && Overflows(stream, k, limit);
      FirstOverflow(stream, k, limit);
    }
  }

  /** After the last chunk nothing more is received. */
  lemma {:induction false} LastChunkHasAll(stream: seq<Message>, j: nat, k: nat)
    requires k <= j < |stream| && stream[k].HttpRequest?
    ensures exists m :: k <= m <= j && stream[m].HttpRequest? && Received(stream, m + 1) == Received(stream, j + 1)
  {
    if !stream[j].HttpRequest? {
      LastChunkHasAll(stream, j - 1, k);
    }
  }

  /** An application behind the middleware never assembles more than the limit, however often it receives,
      and sees the client's own messages up to the end of the body, then empty requests without more body. */
  lemma ReplayIsFaithfulAndBounded(stream: seq<Message>, j: nat, limit: int, n: nat)
    requires j < |stream| && limit >= 0 && Open(stream, j, limit) && !Overflows(stream, j, limit)
    ensures var messages := stream[..j + 1];
            && |Assembled(messages, n)| <= limit
            && (forall i :: 0 <= i <= j ==> Served(messages, i) == stream[i])
            && (forall i :: i > j ==> Served(messages, i) == HttpRequest([], false))
  {
    var messages := stream[..j + 1];
    if n <= |messages| {
      assert messages[..n] == stream[..n];
      AssembledSize(stream, n, messages);
      ReceivedWithinLimit(stream, n, limit);
    } else {
      assert messages[..j + 1] == stream[..j + 1];
      NothingAfterTheEnd(messages, n);
      AssembledSize(stream, j + 1, messages);
      ReceivedWithinLimit(stream, j + 1, limit);
    }
  }
}
