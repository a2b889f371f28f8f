/** Optimistic send and acknowledgment reconciliation, as pure functions on
    the chat window: the pending line a submit puts at the top, the rule by
    which an acknowledgment recognises a line as its own, and the window an
    acknowledgment leaves behind. Index 0 of a window is its top line. */
module Reconcile {
  import opened Options
  import opened JsStrings

  /** The line a submit shows while the send is unconfirmed. */
  function PendingLine(name: string, text: string, id: nat): (r: string)
    ensures WellHeaded(r) && r[0] == '{'
    ensures MarkerAt(r, |ConfirmedLine(name, text)|) && HasMarker(r)
  {
    var r := "{bold}" + name + "{/bold}: " + text + " (pending - " + Decimal(id) + " )";
    assert r == ConfirmedLine(name, text) + Marker + Decimal(id) + " )";
    assert r[|ConfirmedLine(name, text)|..|ConfirmedLine(name, text)| + |Marker|] == Marker;
    r
  }

  /** The part of a pending line before its marker; the confirmed line is
      this text (keeping its trailing space) when it holds no marker. */
  function ConfirmedLine(name: string, text: string): string {
    "{bold}" + name + "{/bold}: " + text + " "
  }

  /** An acknowledgment event from the streaming connection: `ok` is the
      truthiness of its `ok` field, `replyTo` its `reply_to` when that is a
      number (None when absent or of another type). */
  datatype Ack = Ack(ok: bool, replyTo: Option<int>)

  /** The source's test for one window line: split on the marker, take the
      last piece, parse its first character, compare with `===`. */
  function Matches(line: string, replyTo: Option<int>): (b: bool)
    ensures b ==> replyTo.Some? && 0 <= replyTo.value < 10
  {
    var d := ParseIntFirstChar(LastPiece(line));
    d.Some? && replyTo == Some(d.value as int)
  }

  /** The replacement for a matched line: `line.join('')` after the pop.
      A line without a marker would be emptied; a line with one loses at
      least the marker's length. `AckAtLastMarker` gives its value. */
  function Confirm(line: string): (r: string)
    ensures !HasMarker(line) ==> r == ""
    ensures HasMarker(line) ==> |r| + |Marker| <= |line|
  {
    JoinInitBounds(line);
    JoinInit(line)
  }

  /** What the ack handler reads and writes for ANY window line, history
      lines with marker text of their own included. Without a marker, the
      line itself is parsed and confirming would empty it. With one, the
      ack parses what follows the LAST marker, and confirming drops that
      marker and everything after it; the text before it is split and
      glued in turn, so it stays as it is when it holds no marker. */
  lemma AckAtLastMarker(line: string)
    ensures LastMarker(line).None? ==> LastPiece(line) == line && Confirm(line) == ""
    ensures LastMarker(line).Some? ==>
      var i := LastMarker(line).value;
      LastPiece(line) == line[i + |Marker|..] &&
      Confirm(line) == Join(Split(line[..i]), "") &&
      (!HasMarker(line[..i]) ==> Confirm(line) == line[..i])
  {
    SplitEnds(line);
  }

  /** The lines the client itself writes begin with '{' (messages) or 'G'
      (the loading placeholder): never with a digit and never with '('. */
  predicate WellHeaded(line: string) {
    |line| > 0 && line[0] != '(' && !IsDigit(line[0])
  }

  /** The line an acknowledgment picks: the scan runs from the last index
      down to 0 and stops at the first match, so this is the highest
      matching index. */
  function MatchIndex(w: seq<string>, replyTo: Option<int>): (r: Option<nat>)
    ensures r.Some? ==> r.value < |w| && Matches(w[r.value], replyTo)
    ensures r.Some? ==> forall j :: r.value < j < |w| ==> !Matches(w[j], replyTo)
    ensures r.None? ==> forall j :: 0 <= j < |w| ==> !Matches(w[j], replyTo)
  {
    if w == [] then None
    else if Matches(w[|w| - 1], replyTo) then Some(|w| - 1)
    else MatchIndex(w[..|w| - 1], replyTo)
  }

  /** The window after the client has handled an acknowledgment. */
  function AfterAck(w: seq<string>, ack: Ack): (r: seq<string>)
    ensures |r| == |w|
    ensures !ack.ok || MatchIndex(w, ack.replyTo).None? ==> r == w
    ensures ack.ok && MatchIndex(w, ack.replyTo).Some? ==>
      var i := MatchIndex(w, ack.replyTo).value;
      r[i] == Confirm(w[i]) && forall j :: 0 <= j < |w| && j != i ==> r[j] == w[j]
  {
    if !ack.ok then w
    else match MatchIndex(w, ack.replyTo)
      case None => w
      case Some(i) => w[i := Confirm(w[i])]
  }

  /** A pending line splits into the text before its own marker and the id
      text behind it; nothing in the name or the message can move the
      last marker past the one the client appended. */
  lemma PendingLineParts(name: string, text: string, id: nat)
    ensures LastPiece(PendingLine(name, text, id)) == Decimal(id) + " )"
    ensures Confirm(PendingLine(name, text, id)) == Join(Split(ConfirmedLine(name, text)), "")
  {
    var d := Decimal(id) + " )";
    assert PendingLine(name, text, id) == ConfirmedLine(name, text) + Marker + d;
    assert '(' !in d by {
      forall k | 0 <= k < |d| ensures d[k] != '(' {
        if k < |Decimal(id)| { assert IsDigit(Decimal(id)[k]); }
      }
    }
    NoParenNoMarker(d);
    SplitAtAppendedMarker(ConfirmedLine(name, text), d, "");
  }

  /** The source's matching rule on its own pending lines: an ack matches
      the line for id exactly when `reply_to` is the LEADING DIGIT of id,
      whatever the author's name or the message text. */
  lemma PendingLineMatches(name: string, text: string, id: nat, replyTo: Option<int>)
    ensures Matches(PendingLine(name, text, id), replyTo) <==> replyTo == Some(LeadingDigit(id) as int)
  {
    PendingLineParts(name, text, id);
    var last := Decimal(id) + " )";
    var d := LeadingDigit(id);
    assert last[0] == DigitChar(d);
    assert last[0] as int - '0' as int == d;
    assert ParseIntFirstChar(last) == Some(d);
    assert LastPiece(PendingLine(name, text, id)) == last;
  }

  /** Consequently the ack for a message recognises that message's line
      only while its id has one digit: ids 10 and above are never
      confirmed by their own ack. */
  lemma OwnAckMatchesOnlyBelowTen(name: string, text: string, id: nat)
    ensures Matches(PendingLine(name, text, id), Some(id)) <==> id < 10
  {
    PendingLineMatches(name, text, id, Some(id));
  }

  /** ...and the ack for a one-digit id d also recognises every pending
      line whose id starts with the digit d (for example 1 and 12). */
  lemma AckMatchesSharedLeadingDigit(name: string, text: string, id: nat, d: nat)
    requires 1 <= d < 10 && LeadingDigit(id) == d
    ensures Matches(PendingLine(name, text, id), Some(d))
  {
    PendingLineMatches(name, text, id, Some(d));
  }

  /** When the text before the marker holds no marker, confirming a pending
      line yields exactly that text. */
  lemma ConfirmPendingLine(name: string, text: string, id: nat)
    requires !HasMarker(ConfirmedLine(name, text))
    ensures Confirm(PendingLine(name, text, id)) == ConfirmedLine(name, text)
  {
    PendingLineParts(name, text, id);
    SplitNoMarker(ConfirmedLine(name, text), "");
    assert "" + ConfirmedLine(name, text) == ConfirmedLine(name, text);
  }

  /** A well-headed line with no marker is never matched: lines that were
      never pending cannot be touched by an ack. */
  lemma UnmarkedLineNeverMatches(line: string, replyTo: Option<int>)
    requires WellHeaded(line) && !HasMarker(line)
    ensures !Matches(line, replyTo)
  {
    SplitNoMarker(line, "");
    assert "" + line == line;
  }

  /** Confirming a well-headed line that matched keeps it well headed: it
      starts with the same character as before. */
  lemma ConfirmKeepsHead(line: string, replyTo: Option<int>)
    requires WellHeaded(line) && Matches(line, replyTo)
    ensures WellHeaded(Confirm(line)) && Confirm(line)[0] == line[0]
  {
  }

  /** The confirmed line of a pending line whose text holds no marker is no
      longer recognised by any ack. */
  lemma ConfirmedLineNeverMatches(name: string, text: string, replyTo: Option<int>)
    requires !HasMarker(ConfirmedLine(name, text))
    ensures !Matches(ConfirmedLine(name, text), replyTo)
  {
    UnmarkedLineNeverMatches(ConfirmedLine(name, text), replyTo);
  }

  /** A repeated ack is a no-op when its first delivery confirmed the only
      line it recognised, and that line was a pending line whose text
      before the marker holds no marker. */
  lemma {:induction false} RepeatedAckIsNoOp(w: seq<string>, ack: Ack, i: nat, name: string, text: string, id: nat)
    requires ack.ok && i < |w| && w[i] == PendingLine(name, text, id)
    requires !HasMarker(ConfirmedLine(name, text))
    requires Matches(w[i], ack.replyTo)
    requires forall j :: 0 <= j < |w| && j != i ==> !Matches(w[j], ack.replyTo)
    ensures AfterAck(AfterAck(w, ack), ack) == AfterAck(w, ack)
  {
    var once := AfterAck(w, ack);
    assert MatchIndex(w, ack.replyTo) == Some(i);
    ConfirmPendingLine(name, text, id);
    ConfirmedLineNeverMatches(name, text, ack.replyTo);
    assert forall j :: 0 <= j < |once| ==> !Matches(once[j], ack.replyTo);
  }

  /** The as-written rule in action: with pending lines for ids 12 (top)
      and 1 (below it), the ack for 1 first confirms id 1's line, and a
      second delivery of that same ack confirms id 12's line. */
  lemma RepeatedAckConfirmsAnotherLine(name: string, text: string)
    requires !HasMarker(ConfirmedLine(name, text))
    ensures var w := [PendingLine(name, text, 12), PendingLine(name, text, 1)];
      var ack := Ack(true, Some(1));
      AfterAck(w, ack) == [PendingLine(name, text, 12), ConfirmedLine(name, text)] &&
      AfterAck(AfterAck(w, ack), ack) == [ConfirmedLine(name, text), ConfirmedLine(name, text)]
  {
    var w := [PendingLine(name, text, 12), PendingLine(name, text, 1)];
    var ack := Ack(true, Some(1));
    AckMatchesSharedLeadingDigit(name, text, 12, 1);
    AckMatchesSharedLeadingDigit(name, text, 1, 1);
    ConfirmPendingLine(name, text, 12);
    ConfirmPendingLine(name, text, 1);
    ConfirmedLineNeverMatches(name, text, ack.replyTo);
    assert MatchIndex(w, ack.replyTo) == Some(1);
    var once := AfterAck(w, ack);
    assert once == [PendingLine(name, text, 12), ConfirmedLine(name, text)];
    assert MatchIndex(once, ack.replyTo) == Some(0);
  }

  /** A line that carries marker text of its own (a history message can)
      may, once its pieces are glued by `join('')`, hold a NEW marker. Then
      a second delivery of the same ack changes the line again, although it
      is the only line the ack recognises. */
  lemma RepeatedAckOnGluedMarker()
    ensures var line := "{A}(pen" + Marker + "ding - 3" + Marker + "3 )";
      var ack := Ack(true, Some(3));
      MatchIndex([line], ack.replyTo) == Some(0) &&
      AfterAck([line], ack) == ["{A}" + Marker + "3"] &&
      AfterAck(AfterAck([line], ack), ack) == ["{A}"]
  {
    var a, b, c := "{A}(pen", "ding - 3", "3 )";
    var line := a + Marker + b + Marker + c;
    var glued := "{A}" + Marker + "3";
    assert !HasMarker(a) && !HasMarker(b) && !HasMarker(c) && !HasMarker("{A}") && !HasMarker("3");
    ConfirmBehindTwoMarkers(a, b, c);
    assert a + b == glued;
    ConfirmBehindOneMarker("{A}", "3");
    assert ParseIntFirstChar(c) == Some(3) && ParseIntFirstChar("3") == Some(3);
    assert MatchIndex([line], Some(3)) == Some(0);
    assert MatchIndex([glued], Some(3)) == Some(0);
  }

  /** A line `a + marker + c`, with no marker in a and none in c: the ack
      reads c, and confirming leaves a. */
  lemma ConfirmBehindOneMarker(a: string, c: string)
    requires !HasMarker(a) && !HasMarker(c)
    ensures LastPiece(a + Marker + c) == c && Confirm(a + Marker + c) == a
  {
    assert "" + (a + Marker + c) == a + Marker + c;
    SplitAtAppendedMarker(a, c, "");
    SplitNoMarker(a, "");
    assert "" + a == a;
  }

  /** A line `a + marker + b + marker + c`, with no marker in a, b or c:
      the ack reads c, and confirming glues a and b together. */
  lemma ConfirmBehindTwoMarkers(a: string, b: string, c: string)
    requires !HasMarker(a) && !HasMarker(b) && !HasMarker(c)
    ensures LastPiece(a + Marker + b + Marker + c) == c
    ensures Confirm(a + Marker + b + Marker + c) == a + b
  {
    var front := a + Marker + b;
    var line := front + Marker + c;
    assert "" + line == line;
    SplitAtAppendedMarker(front, c, "");
    var q := SplitFrom(front, "");
    SplitAtAppendedMarker(a, b, "");
    SplitNoMarker(a, "");
    assert "" + a == a;
    JoinEmptyInitLast(q);
  }

  /** Submit then acknowledge: a fresh one-digit pending line on top of a
      window where nothing else answers to its id comes back confirmed,
      and every other line is left as it was. */
  lemma SubmitThenAck(w: seq<string>, name: string, text: string, id: nat)
    requires id < 10
    requires !HasMarker(ConfirmedLine(name, text))
    requires forall j :: 0 <= j < |w| ==> !Matches(w[j], Some(id))
    ensures AfterAck([PendingLine(name, text, id)] + w, Ack(true, Some(id)))
      == [ConfirmedLine(name, text)] + w
  {
    var pending := PendingLine(name, text, id);
    var v := [pending] + w;
    OwnAckMatchesOnlyBelowTen(name, text, id);
    ConfirmPendingLine(name, text, id);
    assert v[1..] == w;
    OnlyTopMatches(v, Ack(true, Some(id)));
  }

  /** When only the top line matches, the scan stops there. */
  lemma OnlyTopMatches(v: seq<string>, ack: Ack)
    requires ack.ok && |v| > 0 && Matches(v[0], ack.replyTo)
    requires forall j :: 0 <= j < |v[1..]| ==> !Matches(v[1..][j], ack.replyTo)
    ensures MatchIndex(v, ack.replyTo) == Some(0)
    ensures AfterAck(v, ack) == [Confirm(v[0])] + v[1..]
  {
    forall j | 0 < j < |v| ensures !Matches(v[j], ack.replyTo) {
      assert v[j] == v[1..][j - 1];
    }
    var m := MatchIndex(v, ack.replyTo);
    assert m.Some?;
    ReplaceTop(v, Confirm(v[0]));
  }

  lemma ReplaceTop<T>(v: seq<T>, x: T)
    requires |v| > 0
    ensures v[0 := x] == [x] + v[1..]
  {
    assert v[0 := x][1..] == v[1..];
  }
}
