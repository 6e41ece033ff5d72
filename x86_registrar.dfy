/** `X86LibraryRegistrar`: one chunk of work sent to a 32-bit registrar
    worker over its own pipe, one request and one reply at a time. */
module X86Registrar {
  import opened Common
  import opened PEMetadata
  import opened Messages
  import opened RegistrationManagement
  import LibraryRegistrar

  const RegistrarPrefix: string := "comwizard.registrar-"

  /** The request for one file: its metadata, path and hash. */
  function RequestFor(m: Metadata): (req: Message)
    ensures req.RegistrationRequest? && req.fileInformation == m
    ensures req.path == m.path && req.sha256 == m.sha256
  {
    RegistrationRequest(m, m.path, m.sha256)
  }

  /** The worker's reply to the request for `m` is about `m`: a success
      carries `m`'s metadata, the result directory and the file name of
      `m`'s path, and a failure names `m`'s path and file name. */
  lemma RequestAnswered(m: Metadata, dir: string, fault: Option<LibraryRegistrar.Fault>)
    ensures var reply := LibraryRegistrar.Reply(RequestFor(m), dir, fault);
            IsRegistrationResult(reply)
            && (fault.None? ==> reply == RegistrationSuccess(m, dir, FileName(m.path)))
            && (fault.Some? ==> reply.RegistrationFailure? && reply.path == m.path && reply.name == FileName(m.path))
  {
  }

  /** The pipe events of sending `work[k]` and reading `replies[k]`, for
      each `k` in turn. */
  function Exchange(work: seq<Metadata>, replies: seq<Message>): (es: seq<Event>)
    requires |work| == |replies|
    ensures |es| == 2 * |work|
  {
    if work == [] then []
    else Exchange(work[..|work| - 1], replies[..|replies| - 1])
         + [Sent(RequestFor(Last(work))), Received(Last(replies))]
  }

  /** Requests and replies strictly alternate: event `2k` sends the request
      for `work[k]` and event `2k + 1` receives `replies[k]`. */
  lemma {:induction false} ExchangeAlternates(work: seq<Metadata>, replies: seq<Message>)
    requires |work| == |replies|
    ensures forall k :: 0 <= k < |work| ==>
              Exchange(work, replies)[2 * k] == Sent(RequestFor(work[k]))
              && Exchange(work, replies)[2 * k + 1] == Received(replies[k])
  {
    if work != [] {
      var n := |work| - 1;
      ExchangeAlternates(work[..n], replies[..n]);
      forall k | 0 <= k < |work|
        ensures Exchange(work, replies)[2 * k] == Sent(RequestFor(work[k]))
        ensures Exchange(work, replies)[2 * k + 1] == Received(replies[k])
      {
        if k < n {
          assert work[..n][k] == work[k] && replies[..n][k] == replies[k];
        }
      }
    }
  }

  /** The replies that are results, in order: the ones the registrar yields. */
  function ResultsOf(replies: seq<Message>): (rs: seq<Message>)
    ensures |rs| <= |replies|
  {
    if replies == [] then []
    else ResultsOf(replies[..|replies| - 1])
         + (if IsRegistrationResult(Last(replies)) then [Last(replies)] else [])
  }

  /** Only registration results are yielded, each one a reply the worker sent. */
  lemma {:induction false} ResultsAreReplies(replies: seq<Message>)
    ensures forall k :: 0 <= k < |ResultsOf(replies)| ==>
              IsRegistrationResult(ResultsOf(replies)[k]) && ResultsOf(replies)[k] in replies
  {
    if replies != [] {
      var init := replies[..|replies| - 1];
      ResultsAreReplies(init);
      assert forall m :: m in init ==> m in replies;
    }
  }

  /** A registrar pipe name is one the worker's argument guard accepts, and
      it survives the worker's `Trim()`. */
  lemma RegistrarNameAccepted(guid: string)
    requires GuidDigits(guid)
    ensures PipeArguments(["--pipe", RegistrarPrefix + guid], LibraryRegistrar.PipePrefix)
            && Trim(RegistrarPrefix + guid) == RegistrarPrefix + guid
  {
    PipeNameTrimmed(RegistrarPrefix, guid);
  }

  /** After `i` items: the pipe's trace, begun at `t0`, is the first `i`
      exchanges, and the results are those of the first `i` replies. */
  ghost predicate Progress(work: seq<Metadata>, ms: seq<Message>, t0: seq<Event>, i: nat,
                           trace: seq<Event>, results: seq<Message>)
  {
    i <= |work| && i <= |ms| && trace == t0 + Exchange(work[..i], ms[..i]) && results == ResultsOf(ms[..i])
  }

  /** One more request and reply. */
  lemma ProgressStep(work: seq<Metadata>, ms: seq<Message>, t0: seq<Event>, i: nat,
                     trace: seq<Event>, results: seq<Message>)
    requires Progress(work, ms, t0, i, trace, results) && i < |work| && i < |ms|
    ensures Progress(work, ms, t0, i + 1, trace + [Sent(RequestFor(work[i]))] + [Received(ms[i])],
                     results + (if IsRegistrationResult(ms[i]) then [ms[i]] else []))
  {
    assert work[..i + 1][..i] == work[..i] && ms[..i + 1][..i] == ms[..i];
  }

  /** How a registrar's conversation with its worker ends: the results
      yielded, the failure if any, the events on the worker's pipe and what
      is left unread. */
  datatype Session = Session(results: seq<Message>, fault: Option<Fault>, events: seq<Event>, rest: seq<Message>)

  /** The conversation over a pipe that is `broken` or whose worker sends
      `replies`: a broken pipe fails on the first write; a worker that stops
      answering fails the read after its last reply; otherwise every item
      gets its reply and `Terminate` follows. */
  function Conversation(work: seq<Metadata>, broken: bool, replies: seq<Message>): (c: Session)
    ensures |c.results| <= |replies|
  {
    var n := |work|;
    if broken then Session([], Some(WriteFailed), [], replies)
    else if |replies| < n then
      Session(ResultsOf(replies), Some(ReadFailed),
              Exchange(work[..|replies|], replies) + [Sent(RequestFor(work[|replies|]))], [])
    else Session(ResultsOf(replies[..n]), None, Exchange(work, replies[..n]) + [Sent(Terminate)], replies[n..])
  }

  /** The conversation fails exactly when the pipe is broken or the worker
      runs out of replies, and yields at most one result per item. */
  lemma ConversationOutcome(work: seq<Metadata>, broken: bool, replies: seq<Message>)
    ensures Conversation(work, broken, replies).fault.None? <==> !broken && |work| <= |replies|
    ensures |Conversation(work, broken, replies).results| <= |work|
  {
  }

  /** A pipe broken from the start fails on the first write. */
  lemma BrokenConversation(work: seq<Metadata>, replies: seq<Message>)
    ensures Conversation(work, true, replies) == Session([], Some(WriteFailed), [], replies)
  {
  }

  /** The worker stopped answering after the last of `ms`. */
  lemma ShortExit(work: seq<Metadata>, ms: seq<Message>, t0: seq<Event>, trace: seq<Event>, results: seq<Message>)
    requires Progress(work, ms, t0, |ms|, trace, results) && |ms| < |work|
    ensures var c := Conversation(work, false, ms);
            c.results == results && c.fault == Some(ReadFailed) && c.rest == []
            && trace + [Sent(RequestFor(work[|ms|]))] == t0 + c.events
  {
    assert ms[..|ms|] == ms;
  }

  /** Every item was answered. */
  lemma FullExit(work: seq<Metadata>, ms: seq<Message>, t0: seq<Event>, trace: seq<Event>, results: seq<Message>)
    requires Progress(work, ms, t0, |work|, trace, results)
    ensures var c := Conversation(work, false, ms);
            c.results == results && c.fault.None? && c.rest == ms[|work|..]
            && trace + [Sent(Terminate)] == t0 + c.events
  {
    assert work[..|work|] == work;
  }

  /** Each request is answered before the next is sent, and `Terminate`
      comes last: the events of a conversation alternate request and reply. */
  lemma ConversationAlternates(work: seq<Metadata>, replies: seq<Message>)
    requires |work| <= |replies|
    ensures var c := Conversation(work, false, replies);
            |c.events| == 2 * |work| + 1 && Last(c.events) == Sent(Terminate)
            && forall k :: 0 <= k < |work| ==>
                 c.events[2 * k] == Sent(RequestFor(work[k])) && c.events[2 * k + 1] == Received(replies[k])
  {
    var n := |work|;
    var ex := Exchange(work, replies[..n]);
    ExchangeAlternates(work, replies[..n]);
    forall k | 0 <= k < n
      ensures (ex + [Sent(Terminate)])[2 * k] == Sent(RequestFor(work[k]))
      ensures (ex + [Sent(Terminate)])[2 * k + 1] == Received(replies[k])
    {
      assert replies[..n][k] == replies[k];
    }
  }

  class X86LibraryRegistrar {
    const manager: RegistrationManager
    const work: seq<Metadata>

    constructor(manager: RegistrationManager, work: seq<Metadata>)
      ensures this.manager == manager && this.work == work
    {
      this.manager := manager;
      this.work := work;
    }

    /** `Register`: ask the manager for a worker on a fresh pipe, wait for it
        (`connects`), then hold the conversation on `pipe`, the worker's pipe. */
    method Register(guid: string, pipe: MessageChannel, connects: bool)
      returns (results: seq<Message>, fault: Option<Fault>, pipeName: string)
      requires manager.creationLockFree && pipe != manager.serverStream
      modifies manager, manager.serverStream, pipe
      ensures pipeName == RegistrarPrefix + guid
      ensures manager.creationLockFree
      ensures pipe.broken == old(pipe.broken)
      ensures var s := old(manager.serverStream);
              var created := s != null && !old(s.broken) && old(s.inbox) != [] && old(s.inbox)[0].StartRegistrarResult?;
              created ==> manager.serverStream == s && s.inbox == old(s.inbox)[1..]
                          && s.trace == old(s.trace) + [Sent(StartRegistrarRequest(Library, pipeName)), Received(old(s.inbox)[0])]
      ensures var s := old(manager.serverStream);
              var created := s != null && !old(s.broken) && old(s.inbox) != [] && old(s.inbox)[0].StartRegistrarResult?;
              var c := Conversation(work, old(pipe.broken), old(pipe.inbox));
              if !created || !connects then
                fault.Some? && results == [] && pipe.trace == old(pipe.trace) && pipe.inbox == old(pipe.inbox)
              else
                results == c.results && fault == c.fault
                && pipe.trace == old(pipe.trace) + c.events && pipe.inbox == c.rest
    {
      pipeName := RegistrarPrefix + guid;
      var reply := manager.CreateRegistrar(pipeName);
      if reply.Err? {
        return [], Some(reply.error), pipeName;
      }
      if !connects {
        return [], Some(ConnectFailed), pipeName;
      }
      results, fault := Converse(pipe);
    }

    /** The `foreach` over the work and the closing `Terminate`. */
    method Converse(pipe: MessageChannel) returns (results: seq<Message>, fault: Option<Fault>)
      modifies pipe
      ensures pipe.broken == old(pipe.broken)
      ensures var c := Conversation(work, old(pipe.broken), old(pipe.inbox));
              results == c.results && fault == c.fault
              && pipe.trace == old(pipe.trace) + c.events && pipe.inbox == c.rest
    {
      ghost var t0 := pipe.trace;
      ghost var ms := pipe.inbox;
      results := [];
      for i := 0 to |work|
        invariant i <= |ms| && pipe.inbox == ms[i..] && pipe.broken == old(pipe.broken)
        invariant (pipe.broken ==> i == 0 && pipe.trace == t0)
        invariant Progress(work, ms, t0, i, pipe.trace, results)
      {
        ghost var before := pipe.trace;
        var ok := pipe.Write(RequestFor(work[i]));
        if !ok {
          assert pipe.trace == t0;
          BrokenConversation(work, ms);
          return [], Some(WriteFailed);
        }
        var m := pipe.Read();
        if m.None? {
          ShortExit(work, ms, t0, before, results);
          return results, Some(ReadFailed);
        }
        ProgressStep(work, ms, t0, i, before, results);
        if IsRegistrationResult(m.value) {
          results := results + [m.value];
        }
      }
      ghost var before := pipe.trace;
      var ok := pipe.Write(Terminate);
      if !ok {
        assert pipe.trace == t0;
        BrokenConversation(work, ms);
        return [], Some(WriteFailed);
      }
      FullExit(work, ms, t0, before, results);
      fault := None;
    }
  }
}
