/** The few JavaScript string operations the chat client relies on, stated
    as they behave in the language: `split` with a string separator,
    `join('')`, the decimal rendering of a positive integer, and `parseInt`
    applied to a single character. */
module JsStrings {
  import opened Options

  /** The text the client splits window lines on to find a pending id. */
  const Marker: string := "(pending - "

  predicate IsDigit(c: char) {
    '0' <= c <= '9'
  }

  /** The character JavaScript prints for the decimal digit d. */
  function DigitChar(d: nat): (c: char)
    requires d < 10
    ensures IsDigit(c)
  {
    ('0' as int + d) as char
  }

  /** Marker occurs in s starting at index i. */
  predicate MarkerAt(s: string, i: nat) {
    i + |Marker| <= |s| && s[i..i + |Marker|] == Marker
  }

  predicate HasMarker(s: string) {
    exists i: nat | i <= |s| :: MarkerAt(s, i)
  }

  /** `s.split(Marker)`: the string is scanned left to right; every
      non-overlapping occurrence of Marker closes the piece under
      construction (`cur`) and starts a new, empty one. */
  function SplitFrom(s: string, cur: string): (r: seq<string>)
    ensures |r| >= 1 && cur <= r[0]
    ensures |r| == 1 ==> r[0] == cur + s
    decreases |s|
  {
    if |s| == 0 then [cur]
    else if Marker <= s then [cur] + SplitFrom(s[|Marker|..], "")
    else
      assert s == [s[0]] + s[1..];
      SplitFrom(s[1..], cur + [s[0]])
  }

  function Split(s: string): (r: seq<string>)
    ensures |r| >= 1
  {
    SplitFrom(s, "")
  }

  /** `pieces.join(sep)`: the pieces with sep between neighbours. */
  function Join(pieces: seq<string>, sep: string): string {
    if |pieces| == 0 then ""
    else if |pieces| == 1 then pieces[0]
    else pieces[0] + sep + Join(pieces[1..], sep)
  }

  /** The highest index at or below n where Marker starts in s. */
  function LastMarkerFrom(s: string, n: nat): (r: Option<nat>)
    ensures r.Some? ==> r.value <= n && MarkerAt(s, r.value)
    ensures r.Some? ==> forall k: nat :: r.value < k <= n ==> !MarkerAt(s, k)
    ensures r.None? ==> forall k: nat :: k <= n ==> !MarkerAt(s, k)
  {
    if MarkerAt(s, n) then Some(n)
    else if n == 0 then None
    else LastMarkerFrom(s, n - 1)
  }

  /** Where the last Marker in s starts, if s holds one. */
  function LastMarker(s: string): (r: Option<nat>)
    ensures r.None? <==> !HasMarker(s)
    ensures r.Some? ==> MarkerAt(s, r.value)
    ensures r.Some? ==> forall k: nat :: r.value < k <= |s| ==> !MarkerAt(s, k)
  {
    LastMarkerFrom(s, |s|)
  }

  /** What `line.pop()` returns after `line = s.split(Marker)`: the text
      after the last Marker, or the whole string when there is none. */
  function LastPiece(s: string): (r: string)
    ensures !HasMarker(r)
    ensures !HasMarker(s) ==> r == s
  {
    var p := Split(s);
    SplitRoundTrip(s);
    assert !HasMarker(s) ==> p == [s] by {
      if !HasMarker(s) {
        SplitNoMarker(s, "");
        assert "" + s == s;
      }
    }
    p[|p| - 1]
  }

  /** What `line.join('')` returns after that `pop()`: every piece but the
      last, glued together with nothing between them. */
  function JoinInit(s: string): string {
    var p := Split(s);
    Join(p[..|p| - 1], "")
  }

  /** The ends of `split`: without Marker, the one piece is s; with one,
      the last piece is what follows the last Marker and the rest glues
      to the text before it, split and glued. */
  lemma SplitEnds(s: string)
    ensures var p := Split(s);
      (LastMarker(s).None? ==> p == [s]) &&
      (LastMarker(s).Some? ==>
        var i := LastMarker(s).value;
        p[|p| - 1] == s[i + |Marker|..] &&
        Join(p[..|p| - 1], "") == Join(Split(s[..i]), "") &&
        (!HasMarker(s[..i]) ==> Join(p[..|p| - 1], "") == s[..i]))
  {
    match LastMarker(s)
    case None =>
      SplitNoMarker(s, "");
      assert "" + s == s;
    case Some(i) =>
      var a, b := s[..i], s[i + |Marker|..];
      assert s == a + Marker + b;
      assert !HasMarker(b) by {
        forall k: nat | k <= |b| ensures !MarkerAt(b, k) {
          if k + |Marker| <= |b| {
            assert b[k..k + |Marker|] == s[i + |Marker| + k..i + |Marker| + k + |Marker|];
            assert !MarkerAt(s, i + |Marker| + k);
          }
        }
      }
      SplitAtAppendedMarker(a, b, "");
      if !HasMarker(a) {
        SplitNoMarker(a, "");
        assert "" + a == a;
      }
  }

  /** `parseInt(s[0])`: the value of the first character when it is an ASCII
      digit, and NaN (here None) otherwise, including for the empty string,
      whose `[0]` is undefined. */
  function ParseIntFirstChar(s: string): (r: Option<nat>)
    ensures r.Some? <==> |s| > 0 && IsDigit(s[0])
    ensures r.Some? ==> r.value < 10 && DigitChar(r.value) == s[0]
  {
    if |s| > 0 && IsDigit(s[0]) then Some(s[0] as int - '0' as int) else None
  }

  /** The most significant decimal digit of n. */
  function LeadingDigit(n: nat): (d: nat)
    ensures d < 10
    ensures n >= 1 ==> d >= 1
    ensures d == n <==> n < 10
  {
    if n < 10 then n else LeadingDigit(n / 10)
  }

  /** The number a string of decimal digits stands for, most significant
      digit first. */
  function DigitsValue(s: string): nat
    requires forall i :: 0 <= i < |s| ==> IsDigit(s[i])
  {
    if s == [] then 0
    else
      assert IsDigit(s[|s| - 1]);
      DigitsValue(s[..|s| - 1]) * 10 + (s[|s| - 1] as int - '0' as int)
  }

  /** The decimal text JavaScript produces for the integer n in `'' + n`:
      digits only, with no leading zero, standing for n. */
  function Decimal(n: nat): (r: string)
    ensures |r| >= 1
    ensures r[0] == DigitChar(LeadingDigit(n))
    ensures forall i :: 0 <= i < |r| ==> IsDigit(r[i])
    ensures DigitsValue(r) == n
    ensures |r| > 1 ==> r[0] != '0'
  {
    if n < 10 then [DigitChar(n)]
    else
      var front := Decimal(n / 10);
      var r := front + [DigitChar(n % 10)];
      assert r[..|r| - 1] == front;
      r
  }

  /** With an empty separator, a leading piece simply goes in front. */
  lemma JoinEmptyCons(x: string, q: seq<string>)
    ensures Join([x] + q, "") == x + Join(q, "")
  {
    if |q| == 0 {
      assert [x] + q == [x];
      assert x + "" == x;
    } else {
      assert ([x] + q)[1..] == q;
    }
  }

  lemma MarkerParenOnlyFirst(k: nat)
    requires 0 < k < |Marker|
    ensures Marker[k] != '('
  {
  }

  /** A string without the character '(' holds no Marker. */
  lemma {:induction false} NoParenNoMarker(s: string)
    requires '(' !in s
    ensures !HasMarker(s)
  {
    forall i: nat | i <= |s| ensures !MarkerAt(s, i) {
      if i + |Marker| <= |s| {
        assert s[i..i + |Marker|][0] == s[i] != Marker[0];
      }
    }
  }

  /** Splitting a string that holds no Marker yields one piece: the whole
      string, behind whatever piece was under construction. */
  lemma {:induction false} SplitNoMarker(s: string, cur: string)
    requires !HasMarker(s)
    ensures SplitFrom(s, cur) == [cur + s]
    decreases |s|
  {
    if |s| > 0 {
      assert !MarkerAt(s, 0);
      assert !(Marker <= s);
      assert !HasMarker(s[1..]) by {
        forall i: nat | i <= |s[1..]| ensures !MarkerAt(s[1..], i) {
          if i + |Marker| <= |s[1..]| {
            assert s[1..][i..i + |Marker|] == s[i + 1..i + 1 + |Marker|];
            assert !MarkerAt(s, i + 1);
          }
        }
      }
      SplitNoMarker(s[1..], cur + [s[0]]);
      assert cur + [s[0]] + s[1..] == cur + s;
    }
  }

  /** The scan behind `split` loses nothing and leaves no Marker behind:
      joining the pieces with Marker gives back `cur + s`, and no piece
      holds Marker. `cur` must not hold the start of a Marker occurrence. */
  lemma {:induction false} SplitFromPieces(s: string, cur: string)
    requires forall i: nat | i < |cur| :: !MarkerAt(cur + s, i)
    ensures Join(SplitFrom(s, cur), Marker) == cur + s
    ensures forall k :: 0 <= k < |SplitFrom(s, cur)| ==> !HasMarker(SplitFrom(s, cur)[k])
    decreases |s|
  {
    if |s| == 0 {
      assert cur + s == cur;
      NoMarkerBefore(cur, s);
    } else if Marker <= s {
      var rest := s[|Marker|..];
      SplitFromPieces(rest, "");
      NoMarkerBefore(cur, s);
      SplitAtMarker(s, cur);
    } else {
      var next := cur + [s[0]];
      assert next + s[1..] == cur + s;
      forall i: nat | i < |next| ensures !MarkerAt(next + s[1..], i) {
        if i == |cur| && i + |Marker| <= |cur + s| {
          assert (cur + s)[i..i + |Marker|] == s[..|Marker|];
        }
      }
      SplitFromPieces(s[1..], next);
    }
  }

  /** No Marker starting inside `cur` means none lies wholly inside it. */
  lemma NoMarkerBefore(cur: string, s: string)
    requires forall i: nat | i < |cur| :: !MarkerAt(cur + s, i)
    ensures !HasMarker(cur)
  {
    forall i: nat | i <= |cur| ensures !MarkerAt(cur, i) {
      if i + |Marker| <= |cur| {
        assert cur[i..i + |Marker|] == (cur + s)[i..i + |Marker|];
        assert !MarkerAt(cur + s, i);
      }
    }
  }

  /** One step of the scan at a Marker: the piece under construction is
      closed, and the pieces after it are those of the rest of the text. */
  lemma SplitAtMarker(s: string, cur: string)
    requires Marker <= s
    ensures var rest := s[|Marker|..];
      SplitFrom(s, cur) == [cur] + SplitFrom(rest, "") &&
      Join(SplitFrom(s, cur), Marker) == cur + Marker + Join(SplitFrom(rest, ""), Marker)
  {
    var rest := s[|Marker|..];
    var q := SplitFrom(rest, "");
    var r := [cur] + q;
    assert r[1..] == q;
  }

  /** `s.split(Marker).join(Marker)` is s again; no piece holds Marker; and
      `split` yields a single piece exactly when s holds no Marker. */
  lemma SplitRoundTrip(s: string)
    ensures Join(Split(s), Marker) == s
    ensures forall k :: 0 <= k < |Split(s)| ==> !HasMarker(Split(s)[k])
    ensures |Split(s)| == 1 <==> !HasMarker(s)
  {
    assert "" + s == s;
    SplitFromPieces(s, "");
    var r := Split(s);
    if |r| > 1 {
      assert s == r[0] + Marker + Join(r[1..], Marker);
      assert s[|r[0]|..|r[0]| + |Marker|] == Marker;
      assert MarkerAt(s, |r[0]|);
    }
  }

  /** Gluing pieces with nothing between them: the last piece goes at the
      end. */
  lemma {:induction false} JoinEmptyInitLast(p: seq<string>)
    requires |p| >= 1
    ensures Join(p, "") == Join(p[..|p| - 1], "") + p[|p| - 1]
  {
    if |p| == 1 {
      assert p[..0] == [];
      assert "" + p[0] == p[0];
    } else {
      JoinEmptyInitLast(p[1..]);
      assert p == [p[0]] + p[1..];
      assert p[..|p| - 1] == [p[0]] + p[1..][..|p| - 2];
      JoinEmptyCons(p[0], p[1..]);
      JoinEmptyCons(p[0], p[1..][..|p| - 2]);
    }
  }

  lemma {:induction false} JoinLength(p: seq<string>, sep: string)
    requires |p| >= 1
    ensures |Join(p, sep)| == |Join(p, "")| + (|p| - 1) * |sep|
  {
    if |p| > 1 {
      JoinLength(p[1..], sep);
    }
  }

  /** `join('')` after the pop: nothing is left of a line without Marker,
      and a line with Marker loses at least one Marker's length. */
  lemma JoinInitBounds(s: string)
    ensures !HasMarker(s) ==> JoinInit(s) == ""
    ensures HasMarker(s) ==> |JoinInit(s)| + |Marker| <= |s|
  {
    var p := Split(s);
    SplitRoundTrip(s);
    JoinLength(p, Marker);
    JoinEmptyInitLast(p);
  }

  /** Splitting `a + Marker + b`, where b holds no Marker: the last piece
      is exactly b, and the pieces before it glue back to what splitting a
      alone and gluing gives. No occurrence of Marker can straddle the
      appended one, because Marker holds '(' only at its start. */
  lemma {:induction false} SplitAtAppendedMarker(a: string, b: string, cur: string)
    requires !HasMarker(b)
    ensures var p := SplitFrom(a + Marker + b, cur);
      p[|p| - 1] == b && Join(p[..|p| - 1], "") == Join(SplitFrom(a, cur), "")
    decreases |a|
  {
    var s := a + Marker + b;
    var p := SplitFrom(s, cur);
    if |a| == 0 {
      assert s == Marker + b;
      AppendedMarkerOnly(b, cur);
    } else if Marker <= a {
      SplitAtAppendedMarker(a[|Marker|..], b, "");
      LeadingMarkerStep(a, b, cur);
    } else {
      NoMarkerBeforeAppended(a, b);
      assert s[1..] == a[1..] + Marker + b;
      SplitAtAppendedMarker(a[1..], b, cur + [a[0]]);
    }
  }

  /** The inductive step of `SplitAtAppendedMarker` when a itself starts
      with Marker: that leading Marker closes `cur` in both splits. */
  lemma LeadingMarkerStep(a: string, b: string, cur: string)
    requires Marker <= a
    requires var q := SplitFrom(a[|Marker|..] + Marker + b, "");
      q[|q| - 1] == b && Join(q[..|q| - 1], "") == Join(SplitFrom(a[|Marker|..], ""), "")
    ensures var p := SplitFrom(a + Marker + b, cur);
      p[|p| - 1] == b && Join(p[..|p| - 1], "") == Join(SplitFrom(a, cur), "")
  {
    var s := a + Marker + b;
    assert s[..|Marker|] == a[..|Marker|];
    assert Marker <= s;
    assert s[|Marker|..] == a[|Marker|..] + Marker + b;
    var q := SplitFrom(a[|Marker|..] + Marker + b, "");
    SplitAtMarker(s, cur);
    var p := SplitFrom(s, cur);
    assert p == [cur] + q;
    assert p[..|p| - 1] == [cur] + q[..|q| - 1];
    JoinEmptyCons(cur, q[..|q| - 1]);
    SplitAtMarker(a, cur);
    JoinEmptyCons(cur, SplitFrom(a[|Marker|..], ""));
  }

  /** Splitting `Marker + b`, with no Marker in b, closes `cur` and leaves
      b as the last piece. */
  lemma AppendedMarkerOnly(b: string, cur: string)
    requires !HasMarker(b)
    ensures var p := SplitFrom(Marker + b, cur);
      p == [cur, b] && p[..1] == [cur]
  {
    var s := Marker + b;
    assert Marker <= s;
    assert s[|Marker|..] == b;
    SplitNoMarker(b, "");
    assert "" + b == b;
  }

  /** When a does not start with Marker, neither does `a + Marker + b`:
      the appended Marker's '(' cannot complete an occurrence that starts
      at index 0. */
  lemma NoMarkerBeforeAppended(a: string, b: string)
    requires |a| > 0 && !(Marker <= a)
    ensures !(Marker <= a + Marker + b)
  {
    var s := a + Marker + b;
    assert |s| >= |Marker|;
    if |a| >= |Marker| {
      assert s[..|Marker|] == a[..|Marker|];
    } else {
      MarkerParenOnlyFirst(|a|);
      assert s[..|Marker|][|a|] == s[|a|] == Marker[0] != Marker[|a|];
    }
  }
}
