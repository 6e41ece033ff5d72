/** The messages exchanged between the coordinator, the launcher and the
    registrar worker, and a message-level view of one end of a pipe.

    `Message` is the closed union of the `MessageBase` subclasses, with the
    fields the code reads and writes. */
module Messages {
  import opened Common
  import opened PEMetadata

  /** `ExtractorType`: the code only ever uses `Library`. */
  datatype ExtractorType = Library

  datatype Message =
    | StartRegistrarRequest(extractorType: ExtractorType, pipeName: string)
    | StartRegistrarResult(pid: Option<int>)
    /** `FileInformation` is set by the coordinator and read by the worker. */
    | RegistrationRequest(fileInformation: Metadata, path: string, sha256: string)
    /** The `RegistrationResultMessage` base class itself, as the engine creates
        it for an ineligible file: only its `Path` is set. */
    | RegistrationResult(path: string)
    | RegistrationSuccess(fileInformation: Metadata, outputPath: string, name: string)
    | RegistrationFailure(name: string, path: string, exception: string)
    | Terminate

  /** `message is RegistrationResultMessage`: the base class and both subclasses. */
  predicate IsRegistrationResult(m: Message)
  {
    m.RegistrationResult? || m.RegistrationSuccess? || m.RegistrationFailure?
  }

  datatype Event = Sent(message: Message) | Received(message: Message)

  /** The messages sent, in order, in a trace of events. */
  function SentMessages(trace: seq<Event>): (ms: seq<Message>)
    ensures |ms| <= |trace|
  {
    if trace == [] then []
    else (if trace[0].Sent? then [trace[0].message] else []) + SentMessages(trace[1..])
  }

  lemma {:induction false} SentMessagesAppend(a: seq<Event>, b: seq<Event>)
    ensures SentMessages(a + b) == SentMessages(a) + SentMessages(b)
  {
    if a == [] {
      assert a + b == b;
    } else {
      assert (a + b)[0] == a[0];
      assert (a + b)[1..] == a[1..] + b;
      SentMessagesAppend(a[1..], b);
      var head := if a[0].Sent? then [a[0].message] else [];
      assert SentMessages(a + b) == head + SentMessages(a[1..] + b);
      assert SentMessages(a) == head + SentMessages(a[1..]);
      assert head + (SentMessages(a[1..]) + SentMessages(b))
          == (head + SentMessages(a[1..])) + SentMessages(b);
    }
  }

  /** The messages still unread when a loop that reads until `Terminate`
      stops: those after the first `Terminate`, or none when there is none. */
  function AfterTerminate(inbox: seq<Message>): seq<Message>
  {
    if inbox == [] then []
    else if inbox[0].Terminate? then inbox[1..]
    else AfterTerminate(inbox[1..])
  }

  /** What is left unread is what follows the first `Terminate`. */
  lemma {:induction false} AfterFirstTerminate(inbox: seq<Message>)
    ensures var rest := AfterTerminate(inbox);
      |rest| <= |inbox| && rest == inbox[|inbox| - |rest|..]
      && (Terminate !in inbox ==> rest == [])
      && (Terminate in inbox ==> |rest| < |inbox| && inbox[|inbox| - |rest| - 1] == Terminate
                                 && Terminate !in inbox[..|inbox| - |rest| - 1])
  {
    if inbox != [] && !inbox[0].Terminate? {
      AfterFirstTerminate(inbox[1..]);
      var rest := AfterTerminate(inbox);
      assert inbox == [inbox[0]] + inbox[1..];
      if Terminate in inbox {
        assert Terminate in inbox[1..];
        var j := |inbox| - |rest| - 1;
        assert inbox[..j] == [inbox[0]] + inbox[1..][..j - 1];
      }
    }
  }

  /** Reading messages past a stretch without `Terminate` does not change
      where the first `Terminate` is. */
  lemma {:induction false} AfterTerminateSkips(read: seq<Message>, rest: seq<Message>)
    requires Terminate !in read
    ensures AfterTerminate(read + rest) == AfterTerminate(rest)
  {
    if read != [] {
      assert (read + rest)[0] == read[0] && (read + rest)[1..] == read[1..] + rest;
      AfterTerminateSkips(read[1..], rest);
    } else {
      assert read + rest == rest;
    }
  }

  /** The events of receiving `ms`, in order. */
  function Receipts(ms: seq<Message>): (es: seq<Event>)
    ensures |es| == |ms| && forall k :: 0 <= k < |ms| ==> es[k] == Received(ms[k])
  {
    if ms == [] then [] else Receipts(ms[..|ms| - 1]) + [Received(ms[|ms| - 1])]
  }

  /** Only receiving sends nothing. */
  lemma {:induction false} ReceiptsSendNothing(ms: seq<Message>)
    ensures SentMessages(Receipts(ms)) == []
  {
    if ms != [] {
      ReceiptsSendNothing(ms[..|ms| - 1]);
      SentMessagesAppend(Receipts(ms[..|ms| - 1]), [Received(ms[|ms| - 1])]);
      assert [Received(ms[|ms| - 1])][1..] == [];
    }
  }

  /** One end of a connected pipe, carrying whole messages. `inbox` is what the
      peer will still deliver, in order; when it is exhausted a read fails, as
      `ReadMessageAsync` does when the peer closes or a frame is malformed.
      `broken` makes every write fail. */
  class MessageChannel {
    var inbox: seq<Message>
    var trace: seq<Event>
    var broken: bool

    constructor(inbox: seq<Message>)
      ensures this.inbox == inbox && trace == [] && !broken
    {
      this.inbox := inbox;
      trace := [];
      broken := false;
    }

    /** `ReadMessageAsync`: the next message, or None when none will come. */
    method Read() returns (m: Option<Message>)
      modifies this
      ensures old(inbox) == [] ==> m.None? && inbox == old(inbox) && trace == old(trace)
      ensures old(inbox) != [] ==> m == Some(old(inbox)[0]) && inbox == old(inbox)[1..]
                                   && trace == old(trace) + [Received(old(inbox)[0])]
      ensures broken == old(broken)
    {
      if inbox == [] {
        return None;
      }
      m := Some(inbox[0]);
      trace := trace + [Received(inbox[0])];
      inbox := inbox[1..];
    }

    /** `WriteMessageAsync`: fails, sending nothing, on a broken pipe. */
    method Write(m: Message) returns (ok: bool)
      modifies this
      ensures ok == !old(broken)
      ensures trace == old(trace) + (if ok then [Sent(m)] else [])
      ensures inbox == old(inbox) && broken == old(broken)
    {
      if broken {
        return false;
      }
      trace := trace + [Sent(m)];
      ok := true;
    }
  }
}
