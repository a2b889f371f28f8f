/** The chat client's mutable state and its event handlers: the message-id
    counter, the chat window (index 0 is the top line), the current channel
    id, the submit handler, the acknowledgment handler and the
    channel-select handler with its join and history completions. Outbound
    requests are returned as values. */
module Chat {
  import opened Options
  import opened JsStrings
  import opened Reconcile
  import opened History

  /** What the window shows while a channel switch is in flight. */
  const Placeholder: string := "Getting messages..."

  /** The frame a submit sends over the streaming connection; `channel` is
      None while no channel has been joined (the field is then undefined). */
  datatype Frame = Frame(id: nat, kind: string, channel: Option<string>, text: string)

  /** Outcome of the join request: failed (transport error or non-200
      status), or the joined channel's id. */
  datatype JoinReply = JoinFailed | Joined(channelId: string)

  /** Outcome of the history request: failed, or the entries (newest first)
      and the `latest` timestamp. */
  datatype HistoryReply = HistoryFailed | Fetched(messages: seq<Entry>, latest: string)

  /** The mark-read request issued after a history has been rendered. */
  datatype MarkRead = MarkRead(channel: Option<string>, ts: string)

  /** The `map` step with its lookup loop, one kept entry at a time. */
  method ProjectHistory(kept: seq<Entry>, users: seq<User>) returns (shown: seq<Shown>)
    ensures shown == Project(kept, users)
  {
    shown := [];
    for j := 0 to |kept|
      invariant shown == Project(kept[..j], users)
    {
      var name := FindUserName(users, kept[j].user);
      assert kept[..j + 1] == kept[..j] + [kept[j]];
      ProjectAppend(kept[..j], [kept[j]], users);
      shown := shown + [Shown(kept[j].text, name)];
    }
    assert kept[..|kept|] == kept;
  }

  /** Every history line starts with "{bold}", so it is well headed. */
  lemma HistoryLinesWellHeaded(ms: seq<Shown>)
    ensures forall k :: 0 <= k < |ms| ==> WellHeaded(Lines(ms)[k]) && Lines(ms)[k][0] == '{'
  {
  }

  class Client {
    var window: seq<string>
    var lastId: nat
    var currentChannelId: Option<string>
    /** Every id handed out so far, in order. */
    ghost var issued: seq<nat>
    /** The signed-in user's name (`data.self.name`). */
    const selfName: string
    /** The user directory. */
    const users: seq<User>

    ghost predicate Valid()
      reads this
    {
      (forall j :: 0 <= j < |window| ==> WellHeaded(window[j])) &&
      |issued| == lastId &&
      (forall k :: 0 <= k < |issued| ==> issued[k] == k + 1)
    }

    constructor (selfName: string, users: seq<User>)
      ensures Valid()
      ensures window == [] && lastId == 0 && issued == [] && currentChannelId == None
      ensures this.selfName == selfName && this.users == users
    {
      this.selfName := selfName;
      this.users := users;
      window := [];
      lastId := 0;
      issued := [];
      currentChannelId := None;
    }

    /** `getNextId`: 1 on the first call, one more than the previous result
        on every later call; so it never repeats an id. */
    method NextId() returns (id: nat)
      requires Valid()
      modifies this`lastId, this`issued
      ensures Valid()
      ensures id == old(lastId) + 1 && lastId == id
      ensures issued == old(issued) + [id]
      ensures forall k :: 0 <= k < |old(issued)| ==> old(issued)[k] < id
    {
      lastId := lastId + 1;
      id := lastId;
      issued := issued + [id];
    }

    /** The window widget's `unshiftLine`. */
    method UnshiftLine(line: string)
      modifies this`window
      ensures window == [line] + old(window)
    {
      window := [line] + window;
    }

    /** The window widget's `deleteLine`. */
    method DeleteLine(i: nat)
      requires i < |window|
      modifies this`window
      ensures window == old(window[..i] + window[i + 1..])
    {
      window := window[..i] + window[i + 1..];
    }

    /** The window widget's `insertLine`. */
    method InsertLine(i: nat, line: string)
      requires i <= |window|
      modifies this`window
      ensures window == old(window[..i]) + [line] + old(window[i..])
    {
      window := window[..i] + [line] + window[i..];
    }

    /** The window widget's `deleteTop`; an empty window stays empty. */
    method DeleteTop()
      modifies this`window
      ensures window == if old(window) == [] then [] else old(window[1..])
    {
      if window != [] {
        window := window[1..];
      }
    }

    /** The submit handler: a fresh id, a pending line on top of the
        window, and the frame to send, which carries the channel current at
        submit time. */
    method Submit(text: string) returns (frame: Frame)
      requires Valid()
      modifies this`window, this`lastId, this`issued
      ensures Valid()
      ensures lastId == old(lastId) + 1 && issued == old(issued) + [lastId]
      ensures window == [PendingLine(selfName, text, lastId)] + old(window)
      ensures frame == Frame(lastId, "message", currentChannelId, text)
    {
      var id := NextId();
      UnshiftLine(PendingLine(selfName, text, id));
      frame := Frame(id, "message", currentChannelId, text);
    }

    /** The streaming-connection message handler: for a truthy `ok`, scan
        the window from the bottom up and replace the first line the ack
        recognises by its marker-stripped text, at the same index. */
    method HandleMessage(ack: Ack)
      requires Valid()
      modifies this`window
      ensures Valid()
      ensures window == AfterAck(old(window), ack)
    {
      if !ack.ok {
        return;
      }
      var lines := window;
      var i := |lines|;
      while i > 0
        invariant 0 <= i <= |lines|
        invariant window == lines
        invariant forall j :: i <= j < |lines| ==> !Matches(lines[j], ack.replyTo)
      {
        i := i - 1;
        if Matches(lines[i], ack.replyTo) {
          var confirmed := Confirm(lines[i]);
          ConfirmKeepsHead(lines[i], ack.replyTo);
          DeleteLine(i);
          InsertLine(i, confirmed);
          assert MatchIndex(lines, ack.replyTo) == Some(i);
          assert window == lines[i := confirmed];
          return;
        }
      }
    }

    /** Selecting a channel: the window shows the placeholder until the
        history arrives. */
    method OnSelect()
      requires Valid()
      modifies this`window
      ensures Valid()
      ensures window == [Placeholder]
    {
      window := [Placeholder];
    }

    /** The join completion: on failure nothing changes and nothing more is
        requested; on success the joined id becomes current and its history
        is requested. */
    method OnJoinReply(reply: JoinReply) returns (fetch: Option<string>)
      requires Valid()
      modifies this`currentChannelId
      ensures Valid()
      ensures reply.JoinFailed? ==> currentChannelId == old(currentChannelId) && fetch == None
      ensures reply.Joined? ==> currentChannelId == Some(reply.channelId) && fetch == Some(reply.channelId)
    {
      match reply
      case JoinFailed =>
        fetch := None;
      case Joined(id) =>
        currentChannelId := Some(id);
        fetch := Some(id);
    }

    /** The history completion: on failure nothing changes and nothing is
        marked; on success the top line (the placeholder) goes, the message
        entries are rendered on top in the service's order, and mark-read
        is issued for the channel current at that moment. */
    method OnHistoryReply(reply: HistoryReply) returns (mark: Option<MarkRead>)
      requires Valid()
      modifies this`window
      ensures Valid()
      ensures reply.HistoryFailed? ==> window == old(window) && mark == None
      ensures reply.Fetched? ==>
        window == HistoryBlock(reply.messages, users) + (if old(window) == [] then [] else old(window[1..])) &&
        mark == Some(MarkRead(currentChannelId, reply.latest))
    {
      match reply
      case HistoryFailed =>
        mark := None;
      case Fetched(messages, latest) =>
        DeleteTop();
        var shown := ProjectHistory(KeepMessages(messages), users);
        UnshiftAll(Reverse(shown));
        ReversedUnshiftRestoresOrder(shown);
        HistoryLinesWellHeaded(shown);
        mark := Some(MarkRead(currentChannelId, latest));
    }

    /** The `forEach` that unshifts one line per shown message, in order. */
    method UnshiftAll(ordered: seq<Shown>)
      modifies this`window
      ensures window == Reverse(Lines(ordered)) + old(window)
    {
      ghost var lines := Lines(ordered);
      for j := 0 to |ordered|
        invariant window == Reverse(lines[..j]) + old(window)
      {
        assert lines[..j + 1] == lines[..j] + [HistoryLine(ordered[j])];
        ReverseSnoc(lines[..j], HistoryLine(ordered[j]));
        UnshiftLine(HistoryLine(ordered[j]));
      }
      assert lines[..|ordered|] == lines;
    }

    /** The whole channel-select sequence with both replies given up front:
        placeholder, join, history, render, mark-read, each step gated on
        the one before. */
    method SelectChannel(join: JoinReply, history: HistoryReply)
      returns (fetch: Option<string>, mark: Option<MarkRead>)
      requires Valid()
      modifies this`window, this`currentChannelId
      ensures Valid()
      ensures join.JoinFailed? ==>
        currentChannelId == old(currentChannelId) && window == [Placeholder] && fetch == None && mark == None
      ensures join.Joined? ==> currentChannelId == Some(join.channelId) && fetch == Some(join.channelId)
      ensures join.Joined? && history.HistoryFailed? ==> window == [Placeholder] && mark == None
      ensures join.Joined? && history.Fetched? ==>
        window == HistoryBlock(history.messages, users) &&
        mark == Some(MarkRead(Some(join.channelId), history.latest))
    {
      OnSelect();
      fetch := OnJoinReply(join);
      mark := None;
      if fetch.Some? {
        mark := OnHistoryReply(history);
      }
    }
  }

  /** A message submitted while a channel switch waits for its replies:
      the frame targets the channel that was current at submit time (the
      previous channel, or none on a fresh client), and when the history
      arrives `deleteTop` removes the pending line that now sits on top
      instead of the placeholder, which stays below the history. */
  method SubmitDuringChannelSwitch(c: Client, text: string, channelId: string, es: seq<Entry>, latest: string)
    returns (frame: Frame, mark: Option<MarkRead>)
    requires c.Valid()
    modifies c
    ensures c.Valid()
    ensures frame == Frame(old(c.lastId) + 1, "message", old(c.currentChannelId), text)
    ensures c.currentChannelId == Some(channelId)
    ensures c.window == HistoryBlock(es, c.users) + [Placeholder]
    ensures mark == Some(MarkRead(Some(channelId), latest))
  {
    c.OnSelect();
    frame := c.Submit(text);
    var fetch := c.OnJoinReply(Joined(channelId));
    mark := c.OnHistoryReply(Fetched(es, latest));
  }
}
