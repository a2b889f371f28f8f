/** The projection of a channel's history into window lines: keep the
    entries of type 'message', resolve each author through the user
    directory, and render "{bold}name{/bold}: text". The service returns
    history newest first. */
module History {
  import opened Options
  import opened JsStrings

  /** A directory member. */
  datatype User = User(id: string, name: string)

  /** A history entry; `user` and `text` are None where the payload has no
      such field. */
  datatype Entry = Entry(kind: string, user: Option<string>, text: Option<string>)

  /** What the map step produces: `{text, username}`. */
  datatype Shown = Shown(text: Option<string>, username: Option<string>)

  /** String concatenation of a possibly undefined value. */
  function JsText(v: Option<string>): string {
    match v
    case None => "undefined"
    case Some(s) => s
  }

  /** The `filter` step: entries whose type is 'message', in their order. */
  function KeepMessages(es: seq<Entry>): (r: seq<Entry>)
    ensures forall e :: e in r <==> e in es && e.kind == "message"
    ensures |r| <= |es|
  {
    if es == [] then []
    else (if es[0].kind == "message" then [es[0]] else []) + KeepMessages(es[1..])
  }

  predicate IsAuthor(u: User, user: Option<string>) {
    user == Some(u.id)
  }

  /** Directory entry i has the entry's user id and no later one has. */
  predicate LastAuthorAt(users: seq<User>, user: Option<string>, i: int) {
    0 <= i < |users| && IsAuthor(users[i], user) &&
    forall j :: i < j < |users| ==> !IsAuthor(users[j], user)
  }

  /** The author's name: the name of the LAST directory entry whose id is
      the entry's user, or None when there is none. */
  function AuthorName(users: seq<User>, user: Option<string>): (r: Option<string>)
    ensures r.None? <==> forall i :: 0 <= i < |users| ==> !IsAuthor(users[i], user)
    ensures r.Some? ==> exists i :: LastAuthorAt(users, user, i) && r.value == users[i].name
  {
    if users == [] then None
    else
      var n := |users| - 1;
      if IsAuthor(users[n], user) then
        assert LastAuthorAt(users, user, n);
        Some(users[n].name)
      else
        var r := AuthorName(users[..n], user);
        assert forall i :: 0 <= i < n ==> users[..n][i] == users[i];
        assert r.Some? ==> exists i :: LastAuthorAt(users, user, i) && r.value == users[i].name by {
          if r.Some? {
            var i :| LastAuthorAt(users[..n], user, i) && r.value == users[..n][i].name;
            assert LastAuthorAt(users, user, i);
          }
        }
        r
  }

  /** The lookup loop inside the `map` step: a forward scan that overwrites
      the name at every match, so the last match wins. */
  method FindUserName(users: seq<User>, user: Option<string>) returns (name: Option<string>)
    ensures name == AuthorName(users, user)
  {
    name := None;
    for i := 0 to |users|
      invariant name == AuthorName(users[..i], user)
    {
      assert users[..i + 1][..i] == users[..i];
      if IsAuthor(users[i], user) {
        name := Some(users[i].name);
      }
    }
    assert users[..|users|] == users;
  }

  /** The `map` step over the kept entries. */
  function Project(kept: seq<Entry>, users: seq<User>): (r: seq<Shown>)
    ensures |r| == |kept|
    ensures forall k :: 0 <= k < |kept| ==> r[k].text == kept[k].text
    ensures forall k :: 0 <= k < |kept| ==>
      (r[k].username.None? <==> forall i :: 0 <= i < |users| ==> !IsAuthor(users[i], kept[k].user))
    ensures forall k :: 0 <= k < |kept| && r[k].username.Some? ==>
      exists i :: LastAuthorAt(users, kept[k].user, i) && r[k].username.value == users[i].name
  {
    seq(|kept|, k requires 0 <= k < |kept| => Shown(kept[k].text, AuthorName(users, kept[k].user)))
  }

  /** The line `forEach` unshifts for one shown message; a missing author
      or text is written as "undefined". */
  function HistoryLine(m: Shown): (r: string)
    ensures |r| >= |"{bold}{/bold}: "| && r[0] == '{'
    ensures m.username.None? ==> "{bold}undefined{/bold}: " <= r
    ensures m.text.None? ==> |r| >= |"undefined"| && r[|r| - |"undefined"|..] == "undefined"
  {
    "{bold}" + JsText(m.username) + "{/bold}: " + JsText(m.text)
  }

  function Lines(ms: seq<Shown>): seq<string> {
    seq(|ms|, k requires 0 <= k < |ms| => HistoryLine(ms[k]))
  }

  /** The `reverse` step. */
  function Reverse<T>(s: seq<T>): (r: seq<T>)
    ensures |r| == |s|
    ensures forall k :: 0 <= k < |s| ==> r[k] == s[|s| - 1 - k]
  {
    if s == [] then [] else [s[|s| - 1]] + Reverse(s[..|s| - 1])
  }

  /** Reversing a sequence with one more element at its end puts that
      element first. */
  lemma ReverseSnoc<T>(s: seq<T>, x: T)
    ensures Reverse(s + [x]) == [x] + Reverse(s)
  {
    assert (s + [x])[..|s|] == s;
  }

  /** The block of lines a successful history fetch puts on top of the
      window, top to bottom. */
  function HistoryBlock(es: seq<Entry>, users: seq<User>): (r: seq<string>)
    ensures |r| == |KeepMessages(es)| <= |es|
    ensures forall k :: 0 <= k < |r| ==> |r[k]| > 0 && r[k][0] == '{'
  {
    Lines(Project(KeepMessages(es), users))
  }

  /** Filtering keeps the relative order of entries. */
  lemma {:induction false} KeepMessagesAppend(a: seq<Entry>, b: seq<Entry>)
    ensures KeepMessages(a + b) == KeepMessages(a) + KeepMessages(b)
  {
    if a == [] {
      assert a + b == b;
    } else {
      var head := if a[0].kind == "message" then [a[0]] else [];
      assert (a + b)[0] == a[0];
      assert (a + b)[1..] == a[1..] + b;
      KeepMessagesAppend(a[1..], b);
      assert KeepMessages(a + b) == head + KeepMessages(a[1..] + b);
      assert KeepMessages(a) == head + KeepMessages(a[1..]);
    }
  }

  /** Unshifting the reversed lines one by one restores the service's
      order: the block reads top to bottom as the entries were returned. */
  lemma ReversedUnshiftRestoresOrder(ms: seq<Shown>)
    ensures Reverse(Lines(Reverse(ms))) == Lines(ms)
  {
  }

  /** The history block is built entry by entry, in the service's order:
      the block for `a + b` is a's block above b's. */
  lemma HistoryBlockAppend(a: seq<Entry>, b: seq<Entry>, users: seq<User>)
    ensures HistoryBlock(a + b, users) == HistoryBlock(a, users) + HistoryBlock(b, users)
  {
    KeepMessagesAppend(a, b);
    var ka, kb := KeepMessages(a), KeepMessages(b);
    ProjectAppend(ka, kb, users);
    LinesAppend(Project(ka, users), Project(kb, users));
  }

  lemma ProjectAppend(a: seq<Entry>, b: seq<Entry>, users: seq<User>)
    ensures Project(a + b, users) == Project(a, users) + Project(b, users)
  {
  }

  lemma LinesAppend(a: seq<Shown>, b: seq<Shown>)
    ensures Lines(a + b) == Lines(a) + Lines(b)
  {
  }

  /** One entry yields one line when it is a message, none otherwise; the
      line shows the name of the last directory user with the entry's id. */
  lemma HistoryBlockOfOne(e: Entry, users: seq<User>)
    ensures HistoryBlock([e], users) ==
      if e.kind == "message" then ["{bold}" + JsText(AuthorName(users, e.user)) + "{/bold}: " + JsText(e.text)]
      else []
  {
  }

  /** Two messages from one directory user, returned newest first
      (`newer` then `older`), render with `newer` on top and `older`
      beneath it. */
  lemma NewestFirstHistoryRendersNewestOnTop(id: string, name: string, newer: string, older: string)
    ensures HistoryBlock([Entry("message", Some(id), Some(newer)), Entry("message", Some(id), Some(older))],
                         [User(id, name)])
      == ["{bold}" + name + "{/bold}: " + newer, "{bold}" + name + "{/bold}: " + older]
  {
    var en := Entry("message", Some(id), Some(newer));
    var eo := Entry("message", Some(id), Some(older));
    var users := [User(id, name)];
    assert [en, eo] == [en] + [eo];
    HistoryBlockAppend([en], [eo], users);
    assert AuthorName(users, Some(id)) == Some(name);
    HistoryBlockOfOne(en, users);
    HistoryBlockOfOne(eo, users);
  }

  /** An entry of another type (a channel join, say) renders no line. */
  lemma NonMessageEntryRendersNothing(es: seq<Entry>, e: Entry, users: seq<User>)
    requires e.kind != "message"
    ensures HistoryBlock(es + [e], users) == HistoryBlock(es, users)
  {
    HistoryBlockAppend(es, [e], users);
    HistoryBlockOfOne(e, users);
  }
}
