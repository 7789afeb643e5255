/** Bounded output tails and redaction of query-string secrets
    (app/src-tauri/src/diagnostics.rs). */
module Diagnostics {
  import opened Wrappers

  type Byte = bv8

  /** The last `n` elements, or all of them. */
  function LastN<T>(s: seq<T>, n: nat): (r: seq<T>)
    ensures |r| == (if |s| <= n then |s| else n)
    ensures forall i :: 0 <= i < |r| ==> r[i] == s[|s| - |r| + i]
  {
    if |s| <= n then s else s[|s| - n..]
  }

  /** One byte more, as the loop does it. */
  lemma LastNPush<T>(s: seq<T>, x: T, n: nat)
    requires n > 0
    ensures var kept := LastN(s, n);
      LastN(s + [x], n) == (if |kept| == n then kept[1..] else kept) + [x]
  {
    var kept := LastN(s, n);
    if |s| > n {
      assert (s + [x])[|s| + 1 - n..] == s[|s| - n..][1..] + [x];
    } else if |s| == n {
      assert (s + [x])[1..] == s[1..] + [x];
    }
  }

  class BoundedTail {
    const maxBytes: nat
    var bytes: seq<Byte>

    ghost predicate Valid()
      reads this
    {
      maxBytes > 0 && |bytes| <= maxBytes
    }

    constructor (max: nat)
      requires max > 0
      ensures Valid() && bytes == [] && maxBytes == max
    {
      maxBytes := max;
      bytes := [];
    }

    /** Whatever the chunking, the tail is the last `maxBytes` bytes pushed. */
    method Push(chunk: seq<Byte>)
      requires Valid()
      modifies this`bytes
      ensures Valid() && bytes == LastN(old(bytes) + chunk, maxBytes)
    {
      ghost var pushed := bytes;
      for i := 0 to |chunk|
        invariant |bytes| <= maxBytes
        invariant pushed == old(bytes) + chunk[..i] && bytes == LastN(pushed, maxBytes)
      {
        LastNPush(pushed, chunk[i], maxBytes);
        assert old(bytes) + chunk[..i + 1] == pushed + [chunk[i]];
        pushed := pushed + [chunk[i]];
        if |bytes| == maxBytes {
          bytes := bytes[1..];
        }
        bytes := bytes + [chunk[i]];
      }
      assert chunk[..|chunk|] == chunk;
    }
  }

  // ---------- redact_query_token ----------

  const REDACTED: string := "[REDACTED]"

  const NAMES: seq<string> :=
    ["key", "api_key", "apikey", "access_token", "token", "authorization", "app_secret"]

  /** The markers of the given names, in the order the loops visit them. */
  function Markers(names: seq<string>): seq<string> {
    if names == [] then []
    else
      var name := names[|names| - 1];
      Markers(names[..|names| - 1]) + ["?" + name + "="] + ["&" + name + "="]
  }

  predicate StartsWith(t: string, m: string) { |m| <= |t| && t[..|m|] == m }

  /** No character of `w` can begin a marker. */
  predicate Inert(w: string) { forall i :: 0 <= i < |w| ==> w[i] != '?' && w[i] != '&' }

  predicate IsMarker(m: string) {
    && |m| >= 2
    && (m[0] == '?' || m[0] == '&')
    && m[|m| - 1] == '='
    && (forall i :: 0 < i < |m| ==> m[i] != '?' && m[i] != '&')
    && (forall i :: 0 <= i < |m| - 1 ==> m[i] != '=')
  }

  predicate AllMarkers(ms: seq<string>) { forall i :: 0 <= i < |ms| ==> IsMarker(ms[i]) }

  function FirstMatch(ms: seq<string>, t: string): (r: Option<string>)
    ensures r.Some? ==> r.value in ms && StartsWith(t, r.value)
    ensures r.None? ==> forall i :: 0 <= i < |ms| ==> !StartsWith(t, ms[i])
  {
    if ms == [] then None
    else if StartsWith(t, ms[0]) then Some(ms[0])
    else FirstMatch(ms[1..], t)
  }

  /** What remains from the end of a value: the next '&', or nothing. */
  function SkipValue(t: string): (r: string)
    ensures |r| <= |t| && (r == "" || r[0] == '&')
  {
    if t == "" || t[0] == '&' then t else SkipValue(t[1..])
  }

  /** The reference definition: one pass from left to right that keeps every
      character outside a marked value and puts `rep` in place of each value. */
  function Scrub(ms: seq<string>, rep: string, t: string): string
    decreases |t|
  {
    if t == "" then ""
    else match FirstMatch(ms, t)
      case Some(m) => if m == "" then "" else m + rep + Scrub(ms, rep, SkipValue(t[|m|..]))
      case None => [t[0]] + Scrub(ms, rep, t[1..])
  }

  lemma MarkersAreUnambiguous(m: string, n: string, t: string)
    requires IsMarker(m) && IsMarker(n) && StartsWith(t, m) && StartsWith(t, n)
    ensures m == n
  {
    assert forall i :: 0 <= i < |m| ==> m[i] == t[i];
    assert forall i :: 0 <= i < |n| ==> n[i] == t[i];
  }

  lemma NoMatchAtInert(ms: seq<string>, t: string)
    requires AllMarkers(ms) && t != "" && t[0] != '?' && t[0] != '&'
    ensures FirstMatch(ms, t).None?
  {
    assert forall m :: m in ms && StartsWith(t, m) ==> m[0] == t[0];
  }

  lemma MarkerParts(m: string)
    requires IsMarker(m)
    ensures Inert(m[1..]) && '&' !in m[1..] && m == [m[0]] + m[1..]
  {
  }

  lemma MatchOf(ms: seq<string>, m: string, t: string)
    requires AllMarkers(ms) && m in ms && StartsWith(t, m)
    ensures FirstMatch(ms, t) == Some(m)
  {
    MarkersAreUnambiguous(m, FirstMatch(ms, t).value, t);
  }

  /** Scrubbing copies inert text. */
  lemma {:induction false} ScrubInert(ms: seq<string>, rep: string, w: string, u: string)
    requires AllMarkers(ms) && Inert(w)
    ensures Scrub(ms, rep, w + u) == w + Scrub(ms, rep, u)
  {
    if w == "" {
      assert w + u == u;
    } else {
      var t := w + u;
      assert t[1..] == w[1..] + u;
      NoMatchAtInert(ms, t);
      ScrubInert(ms, rep, w[1..], u);
      assert [w[0]] + (w[1..] + Scrub(ms, rep, u)) == w + Scrub(ms, rep, u);
    }
  }

  /** Scrubbing never changes the first character or the emptiness of a text. */
  lemma ScrubHead(ms: seq<string>, rep: string, t: string)
    requires AllMarkers(ms)
    ensures t == "" <==> Scrub(ms, rep, t) == ""
    ensures t != "" ==> Scrub(ms, rep, t)[0] == t[0]
  {
    if t != "" && FirstMatch(ms, t).Some? {
      var m := FirstMatch(ms, t).value;
      assert m[0] == t[0];
    }
  }

  /** Inert text found after scrubbing was there before. */
  lemma {:induction false} ScrubReflectsInert(ms: seq<string>, rep: string, w: string, t: string)
    requires AllMarkers(ms) && Inert(w) && StartsWith(Scrub(ms, rep, t), w)
    ensures StartsWith(t, w)
  {
    if w != "" {
      ScrubHead(ms, rep, t);
      var s := Scrub(ms, rep, t);
      assert s[0] == w[0];
      NoMatchAtInert(ms, t);
      assert s == [t[0]] + Scrub(ms, rep, t[1..]);
      assert s[1..] == Scrub(ms, rep, t[1..]);
      assert s[1..][..|w| - 1] == w[1..];
      ScrubReflectsInert(ms, rep, w[1..], t[1..]);
      assert t[..|w|] == [t[0]] + t[1..][..|w| - 1];
    }
  }

  lemma {:induction false} SkipOverValue(w: string, u: string)
    requires '&' !in w
    ensures SkipValue(w + u) == SkipValue(u)
  {
    if w == "" {
      assert w + u == u;
    } else {
      assert (w + u)[0] == w[0] && (w + u)[1..] == w[1..] + u;
      SkipOverValue(w[1..], u);
    }
  }

  lemma SkipAtBoundary(t: string)
    requires t == "" || t[0] == '&'
    ensures SkipValue(t) == t
  {
  }

  /** Skipping a value commutes with scrubbing. */
  lemma {:induction false} SkipScrub(ms: seq<string>, rep: string, t: string)
    requires AllMarkers(ms) && Inert(rep)
    ensures SkipValue(Scrub(ms, rep, t)) == Scrub(ms, rep, SkipValue(t))
    decreases |t|
  {
    ScrubHead(ms, rep, t);
    if t != "" && t[0] != '&' {
      match FirstMatch(ms, t)
      case Some(m) =>
        var rest := SkipValue(t[|m|..]);
        assert m[0] == t[0];
        assert '&' !in m && '&' !in (m + rep);
        SkipOverValue(m + rep, Scrub(ms, rep, rest));
        ScrubHead(ms, rep, rest);
        SkipAtBoundary(Scrub(ms, rep, rest));
        assert t == m + t[|m|..];
        SkipOverValue(m, t[|m|..]);
      case None =>
        SkipOverValue([t[0]], Scrub(ms, rep, t[1..]));
        SkipScrub(ms, rep, t[1..]);
    }
  }

  /** A match of `m` after scrubbing with other markers was a match before, when no
      other marker begins there. */
  lemma MatchSurvives(ms: seq<string>, rep: string, m: string, t: string)
    requires AllMarkers(ms) && IsMarker(m) && t != "" && FirstMatch(ms, t).None?
    requires StartsWith([t[0]] + Scrub(ms, rep, t[1..]), m)
    ensures StartsWith(t, m)
  {
    var s := [t[0]] + Scrub(ms, rep, t[1..]);
    assert s[1..] == Scrub(ms, rep, t[1..]);
    assert s[1..][..|m| - 1] == m[1..];
    assert s[0] == m[0];
    ScrubReflectsInert(ms, rep, m[1..], t[1..]);
    assert t[..|m|] == [t[0]] + t[1..][..|m| - 1];
    assert m == [m[0]] + m[1..];
  }

  /** Scrubbing what the same markers have scrubbed replaces the replacements:
      idempotence, and independence of the removed values, are its instances. */
  lemma {:induction false} ScrubAgain(ms: seq<string>, rep: string, rep': string, t: string)
    requires AllMarkers(ms) && Inert(rep)
    ensures Scrub(ms, rep', Scrub(ms, rep, t)) == Scrub(ms, rep', t)
    decreases |t|
  {
    if t != "" {
      var s := Scrub(ms, rep, t);
      match FirstMatch(ms, t)
      case Some(m) =>
        var rest := SkipValue(t[|m|..]);
        var tail := Scrub(ms, rep, rest);
        assert s == m + (rep + tail);
        MatchOf(ms, m, s);
        assert s[|m|..] == rep + tail;
        SkipOverValue(rep, tail);
        ScrubHead(ms, rep, rest);
        SkipAtBoundary(tail);
        ScrubAgain(ms, rep, rep', rest);
      case None =>
        assert s == [t[0]] + Scrub(ms, rep, t[1..]);
        assert s[1..] == Scrub(ms, rep, t[1..]);
        if FirstMatch(ms, s).Some? {
          MatchSurvives(ms, rep, FirstMatch(ms, s).value, t);
          assert false;
        }
        ScrubAgain(ms, rep, rep', t[1..]);
    }
  }

  /** One more pass, for one more marker, is one scrub with one more marker. */
  lemma {:induction false} ScrubOneMore(ms: seq<string>, m: string, rep: string, t: string)
    requires AllMarkers(ms) && IsMarker(m) && Inert(rep)
    ensures Scrub([m], rep, Scrub(ms, rep, t)) == Scrub(ms + [m], rep, t)
    decreases |t|, 1
  {
    if t != "" {
      if FirstMatch(ms, t).Some? {
        ScrubOldMarker(ms, m, rep, t);
      } else if StartsWith(t, m) {
        ScrubNewMarker(ms, m, rep, t);
      } else {
        var s := Scrub(ms, rep, t);
        assert s == [t[0]] + Scrub(ms, rep, t[1..]);
        assert s[1..] == Scrub(ms, rep, t[1..]);
        if StartsWith(s, m) {
          MatchSurvives(ms, rep, m, t);
        }
        assert FirstMatch([m], s).None?;
        assert FirstMatch(ms + [m], t).None?;
        ScrubOneMore(ms, m, rep, t[1..]);
      }
    }
  }

  /** The text begins with one of the old markers. */
  lemma {:induction false} ScrubOldMarker(ms: seq<string>, m: string, rep: string, t: string)
    requires AllMarkers(ms) && IsMarker(m) && Inert(rep) && t != "" && FirstMatch(ms, t).Some?
    ensures Scrub([m], rep, Scrub(ms, rep, t)) == Scrub(ms + [m], rep, t)
    decreases |t|, 0
  {
    var n := FirstMatch(ms, t).value;
    var rest := SkipValue(t[|n|..]);
    var tail := Scrub(ms, rep, rest);
    var s := Scrub(ms, rep, t);
    assert s == n + (rep + tail);
    MatchOf(ms + [m], n, t);
    ScrubOneMore(ms, m, rep, rest);
    if m == n {
      assert s[|m|..] == rep + tail;
      MatchOf([m], m, s);
      SkipOverValue(rep, tail);
      ScrubHead(ms, rep, rest);
      SkipAtBoundary(tail);
    } else {
      ScrubOtherMarker(m, n, rep, tail);
    }
  }

  lemma ScrubOtherMarker(m: string, n: string, rep: string, tail: string)
    requires IsMarker(m) && IsMarker(n) && m != n && Inert(rep)
    ensures Scrub([m], rep, n + (rep + tail)) == n + rep + Scrub([m], rep, tail)
  {
    var s := n + (rep + tail);
    assert StartsWith(s, n);
    if StartsWith(s, m) {
      MarkersAreUnambiguous(m, n, s);
    }
    MarkerParts(n);
    Regroup3([n[0]], n[1..], rep, tail);
    assert s[1..] == (n[1..] + rep) + tail;
    ScrubInert([m], rep, n[1..] + rep, tail);
    Regroup3([n[0]], n[1..], rep, Scrub([m], rep, tail));
  }

  lemma Regroup3(a: string, b: string, c: string, d: string)
    ensures (a + b) + (c + d) == a + ((b + c) + d)
    ensures (a + b) + c + d == a + ((b + c) + d)
  {
  }

  /** A marker that none of `ms` matches is copied. */
  lemma ScrubOverMarker(ms: seq<string>, m: string, rep: string, after: string)
    requires AllMarkers(ms) && IsMarker(m) && FirstMatch(ms, m + after).None?
    ensures Scrub(ms, rep, m + after) == m + Scrub(ms, rep, after)
  {
    var t, rest := m + after, Scrub(ms, rep, after);
    MarkerParts(m);
    SplitAt([m[0]], m[1..]);
    assert t[1..] == m[1..] + after && t[0] == m[0];
    ScrubInert(ms, rep, m[1..], after);
    assert Scrub(ms, rep, t) == [m[0]] + (m[1..] + rest);
    Rejoin([m[0]], m[1..], rest);
  }

  lemma Rejoin(a: string, b: string, c: string)
    ensures a + (b + c) == (a + b) + c
  {
  }

  /** One of them is followed by the replacement. */
  lemma ScrubAtMarker(ms: seq<string>, m: string, rep: string, after: string)
    requires AllMarkers(ms) && m in ms && IsMarker(m)
    ensures Scrub(ms, rep, m + after) == m + rep + Scrub(ms, rep, SkipValue(after))
  {
    MatchOf(ms, m, m + after);
    assert (m + after)[|m|..] == after;
  }

  /** The text begins with the new marker. */
  lemma {:induction false} ScrubNewMarker(ms: seq<string>, m: string, rep: string, t: string)
    requires AllMarkers(ms) && IsMarker(m) && Inert(rep) && StartsWith(t, m) && FirstMatch(ms, t).None?
    ensures Scrub([m], rep, Scrub(ms, rep, t)) == Scrub(ms + [m], rep, t)
    decreases |t|, 0
  {
    var after := t[|m|..];
    assert t == m + after;
    ScrubOverMarker(ms, m, rep, after);
    ScrubAtMarker([m], m, rep, Scrub(ms, rep, after));
    SkipScrub(ms, rep, after);
    ScrubOneMore(ms, m, rep, SkipValue(after));
    ScrubAtMarker(ms + [m], m, rep, after);
  }

  lemma {:induction false} ScrubWithout(ms: seq<string>, rep: string, t: string)
    requires forall i :: 0 <= i <= |t| ==> FirstMatch(ms, t[i..]).None?
    ensures Scrub(ms, rep, t) == t
  {
    if t != "" {
      assert t[0..] == t;
      forall i | 0 <= i <= |t[1..]| ensures FirstMatch(ms, t[1..][i..]).None? {
        assert t[1..][i..] == t[i + 1..];
      }
      ScrubWithout(ms, rep, t[1..]);
    }
  }

  /** The leftmost occurrence of `m`. */
  function Find(t: string, m: string): (r: Option<nat>)
    ensures r.Some? ==> r.value + |m| <= |t|
  {
    if StartsWith(t, m) then Some(0)
    else if t == "" then None
    else
      var r := Find(t[1..], m);
      if r.Some? then Some(r.value + 1) else None
  }

  lemma {:induction false} FindIsLeftmost(t: string, m: string)
    ensures Find(t, m).Some? ==> StartsWith(t[Find(t, m).value..], m)
    ensures Find(t, m).Some? ==> forall i :: 0 <= i < Find(t, m).value ==> !StartsWith(t[i..], m)
    ensures Find(t, m).None? ==> forall i :: 0 <= i <= |t| ==> !StartsWith(t[i..], m)
  {
    assert t[0..] == t;
    if !StartsWith(t, m) && t != "" {
      FindIsLeftmost(t[1..], m);
      assert forall i :: 1 <= i <= |t| ==> t[i..] == t[1..][i - 1..];
    }
  }

  lemma {:induction false} ScrubFirst(m: string, rep: string, t: string, found: nat)
    requires IsMarker(m) && found <= |t| && StartsWith(t[found..], m)
    requires forall i :: 0 <= i < found ==> !StartsWith(t[i..], m)
    ensures found + |m| <= |t|
    ensures Scrub([m], rep, t) == t[..found + |m|] + rep + Scrub([m], rep, SkipValue(t[found + |m|..]))
    decreases found
  {
    if found == 0 {
      assert t[0..] == t;
      assert FirstMatch([m], t) == Some(m);
    } else {
      assert t[0..] == t;
      assert !StartsWith(t, m);
      forall i | 0 <= i < found - 1 ensures !StartsWith(t[1..][i..], m) {
        assert t[1..][i..] == t[i + 1..];
      }
      assert t[1..][found - 1..] == t[found..];
      ScrubFirst(m, rep, t[1..], found - 1);
      assert t[1..][found - 1 + |m|..] == t[found + |m|..];
      assert [t[0]] + t[1..][..found - 1 + |m|] == t[..found + |m|];
      Regroup3([t[0]], t[1..][..found - 1 + |m|], rep, Scrub([m], rep, SkipValue(t[found + |m|..])));
    }
  }

  lemma {:induction false} SkipIsSuffix(t: string)
    ensures SkipValue(t) == t[|t| - |SkipValue(t)|..]
  {
    if t != "" && t[0] != '&' {
      SkipIsSuffix(t[1..]);
    }
  }

  /** The end of the value that begins at `start`. */
  function ValueEnd(token: string, start: nat): (end: nat)
    requires start <= |token|
    ensures start <= end <= |token| && token[end..] == SkipValue(token[start..])
  {
    SkipIsSuffix(token[start..]);
    |token| - |SkipValue(token[start..])|
  }

  /** The token with the value between the two positions replaced. */
  function Replacing(token: string, start: nat, end: nat): string
    requires start <= end <= |token|
  {
    token[..start] + REDACTED + token[end..]
  }

  /** What the loop will have made of the token when it stands at `searchFrom`. */
  ghost function Pending(token: string, searchFrom: nat, m: string): string
    requires searchFrom <= |token|
  {
    token[..searchFrom] + Scrub([m], REDACTED, token[searchFrom..])
  }

  lemma PendingAtEnds(token: string, searchFrom: nat, m: string)
    requires searchFrom <= |token|
    ensures Pending(token, 0, m) == Scrub([m], REDACTED, token)
    ensures Find(token[searchFrom..], m).None? ==> Pending(token, searchFrom, m) == token
  {
    assert token[0..] == token && token[..0] == "";
    if Find(token[searchFrom..], m).None? {
      FindIsLeftmost(token[searchFrom..], m);
      ScrubWithout([m], REDACTED, token[searchFrom..]);
      assert token[..searchFrom] + token[searchFrom..] == token;
    }
  }

  /** One iteration of the inner loop changes nothing of that. */
  lemma RedactOnce(token: string, searchFrom: nat, m: string, found: nat)
    requires IsMarker(m) && searchFrom <= |token| && Find(token[searchFrom..], m) == Some(found)
    ensures searchFrom + found + |m| <= |token|
    ensures var start := searchFrom + found + |m|;
      var next, from := Replacing(token, start, ValueEnd(token, start)), start + |REDACTED|;
      from <= |next| && |next| - from < |token| - searchFrom && Pending(next, from, m) == Pending(token, searchFrom, m)
  {
    var rest := token[searchFrom..];
    var cut := found + |m|;
    FindIsLeftmost(rest, m);
    ScrubFirst(m, REDACTED, rest, found);
    assert rest[cut..] == token[searchFrom + cut..];
    var start := searchFrom + cut;
    Regroup(token, searchFrom, cut, REDACTED, Scrub([m], REDACTED, SkipValue(rest[cut..])));
    SplitAt(token[..start] + REDACTED, token[ValueEnd(token, start)..]);
  }

  lemma Regroup(token: string, searchFrom: nat, cut: nat, rep: string, tail: string)
    requires searchFrom + cut <= |token|
    ensures token[..searchFrom] + (token[searchFrom..][..cut] + rep + tail) == (token[..searchFrom + cut] + rep) + tail
  {
    assert token[..searchFrom] + token[searchFrom..][..cut] == token[..searchFrom + cut];
  }

  lemma SplitAt(a: string, b: string)
    ensures (a + b)[..|a|] == a && (a + b)[|a|..] == b
  {
  }

  /** One pass of the inner loop: replaces the value after every occurrence of the
      marker, in the string it is scanning. */
  method RedactMarker(input: string, m: string) returns (token: string)
    requires IsMarker(m)
    ensures token == Scrub([m], REDACTED, input)
  {
    token := input;
    var searchFrom := 0;
    PendingAtEnds(token, 0, m);
    var found := Find(token[searchFrom..], m);
    while found.Some?
      invariant searchFrom <= |token| && Pending(token, searchFrom, m) == Scrub([m], REDACTED, input)
      invariant found == Find(token[searchFrom..], m)
      decreases |token| - searchFrom
    {
      token, searchFrom := ReplaceValue(token, searchFrom, m, found.value);
      found := Find(token[searchFrom..], m);
    }
    PendingAtEnds(token, searchFrom, m);
  }

  /** Replaces the value behind the marker found, and continues behind the replacement. */
  method ReplaceValue(token: string, searchFrom: nat, m: string, found: nat) returns (next: string, from: nat)
    requires IsMarker(m) && searchFrom <= |token| && Find(token[searchFrom..], m) == Some(found)
    ensures from <= |next| && |next| - from < |token| - searchFrom
    ensures Pending(next, from, m) == Pending(token, searchFrom, m)
  {
    RedactOnce(token, searchFrom, m, found);
    var start := searchFrom + found + |m|;
    var end := ValueEnd(token, start);
    next, from := Replacing(token, start, end), start + |REDACTED|;
  }

  predicate PlainName(name: string) { forall i :: 0 <= i < |name| ==> name[i] !in "?&=" }

  lemma NamesArePlain(k: nat)
    requires k < |NAMES|
    ensures PlainName(NAMES[k])
  {
  }

  lemma NameGivesMarker(name: string, c: char)
    requires PlainName(name) && (c == '?' || c == '&')
    ensures IsMarker([c] + name + "=")
  {
    var m := [c] + name + "=";
    forall i | 0 < i < |m| ensures m[i] != '?' && m[i] != '&' && (i < |m| - 1 ==> m[i] != '=') {
      if i < |m| - 1 {
        assert m[i] == name[i - 1];
        assert name[i - 1] !in "?&=";
      }
    }
  }

  lemma {:induction false} NamesGiveMarkers(k: nat)
    requires k <= |NAMES|
    ensures AllMarkers(Markers(NAMES[..k]))
  {
    if k > 0 {
      NamesGiveMarkers(k - 1);
      assert NAMES[..k][..k - 1] == NAMES[..k - 1];
      NamesArePlain(k - 1);
      NameGivesMarker(NAMES[k - 1], '?');
      NameGivesMarker(NAMES[k - 1], '&');
    }
  }

  /** The two passes for one more name. */
  lemma NextName(k: nat, t: string)
    requires k < |NAMES|
    ensures var first, second := "?" + NAMES[k] + "=", "&" + NAMES[k] + "=";
      && IsMarker(first) && IsMarker(second)
      && Scrub(Markers(NAMES[..k + 1]), REDACTED, t)
         == Scrub([second], REDACTED, Scrub([first], REDACTED, Scrub(Markers(NAMES[..k]), REDACTED, t)))
  {
    var before, first, second := Markers(NAMES[..k]), "?" + NAMES[k] + "=", "&" + NAMES[k] + "=";
    NamesArePlain(k);
    NameGivesMarker(NAMES[k], '?');
    NameGivesMarker(NAMES[k], '&');
    NamesGiveMarkers(k);
    assert NAMES[..k + 1][..k] == NAMES[..k];
    assert Markers(NAMES[..k + 1]) == before + [first] + [second];
    ScrubOneMore(before, first, REDACTED, t);
    assert AllMarkers(before + [first]);
    ScrubOneMore(before + [first], second, REDACTED, t);
  }

  /** The whole function: one pass for all markers, after which no secret shows. */
  method RedactQueryToken(input: string) returns (token: string)
    ensures token == Redacted(input) && Hidden(token)
  {
    RedactedIsClean(input);
    token := input;
    ScrubWithout([], REDACTED, input);
    for k := 0 to |NAMES|
      invariant token == Scrub(Markers(NAMES[..k]), REDACTED, input)
    {
      NextName(k, input);
      token := RedactMarker(token, "?" + NAMES[k] + "=");
      token := RedactMarker(token, "&" + NAMES[k] + "=");
    }
    assert NAMES[..|NAMES|] == NAMES;
  }

  /** Every occurrence of a marker is followed by exactly the replacement and then
      by '&' or the end. */
  ghost predicate Clean(ms: seq<string>, rep: string, t: string) {
    forall i, k {:trigger StartsWith(t[i..], ms[k])} ::
      0 <= i <= |t| && 0 <= k < |ms| && StartsWith(t[i..], ms[k]) ==> Replaced(t[i + |ms[k]|..], rep)
  }

  predicate Replaced(t: string, rep: string) {
    StartsWith(t, rep) && (|t| == |rep| || t[|rep|] == '&')
  }

  lemma {:induction false} ScrubIsClean(ms: seq<string>, rep: string, t: string)
    requires AllMarkers(ms) && Inert(rep)
    ensures Clean(ms, rep, Scrub(ms, rep, t))
    decreases |t|, 1
  {
    if t == "" {
    } else if FirstMatch(ms, t).Some? {
      CleanAfterMatch(ms, rep, t, FirstMatch(ms, t).value);
    } else {
      var s := Scrub(ms, rep, t);
      ScrubIsClean(ms, rep, t[1..]);
      assert s[1..] == Scrub(ms, rep, t[1..]);
      forall i, k | 0 <= i <= |s| && 0 <= k < |ms| && StartsWith(s[i..], ms[k])
        ensures Replaced(s[i + |ms[k]|..], rep)
      {
        if i == 0 {
          assert s[0..] == s;
          MatchSurvives(ms, rep, ms[k], t);
          assert false;
        }
        assert s[i..] == s[1..][i - 1..];
        assert s[1..][i - 1 + |ms[k]|..] == s[i + |ms[k]|..];
      }
    }
  }

  lemma BehindReplacement(m: string, rep: string, tail: string, j: nat)
    requires j <= |tail|
    ensures (m + (rep + tail))[|m| + |rep| + j..] == tail[j..]
  {
  }

  /** A marker, its replacement and a clean rest are clean. */
  lemma CleanJoined(ms: seq<string>, rep: string, m: string, tail: string, i: nat, k: nat)
    requires AllMarkers(ms) && IsMarker(m) && Inert(rep)
    requires Clean(ms, rep, tail) && (tail == "" || tail[0] == '&')
    requires i <= |m + (rep + tail)| && k < |ms| && StartsWith((m + (rep + tail))[i..], ms[k])
    ensures i + |ms[k]| <= |m + (rep + tail)| && Replaced((m + (rep + tail))[i + |ms[k]|..], rep)
  {
    var s := m + (rep + tail);
    if i == 0 {
      assert s[0..] == s;
      MarkersAreUnambiguous(m, ms[k], s);
      assert s[|m|..] == rep + tail;
    } else {
      NoMarkerWithin(m, rep, tail, i, ms[k]);
      var j := i - |m| - |rep|;
      BehindReplacement(m, rep, tail, j);
      assert StartsWith(tail[j..], ms[k]);
      BehindReplacement(m, rep, tail, j + |ms[k]|);
    }
  }

  lemma {:induction false} CleanAfterMatch(ms: seq<string>, rep: string, t: string, m: string)
    requires AllMarkers(ms) && Inert(rep) && t != "" && FirstMatch(ms, t) == Some(m)
    ensures Clean(ms, rep, Scrub(ms, rep, t))
    decreases |t|, 0
  {
    var rest := SkipValue(t[|m|..]);
    var tail := Scrub(ms, rep, rest);
    ScrubIsClean(ms, rep, rest);
    ScrubHead(ms, rep, rest);
    Rejoin(m, rep, tail);
    assert Scrub(ms, rep, t) == m + (rep + tail);
    forall i, k | 0 <= i <= |m + (rep + tail)| && 0 <= k < |ms| && StartsWith((m + (rep + tail))[i..], ms[k])
      ensures Replaced((m + (rep + tail))[i + |ms[k]|..], rep)
    {
      CleanJoined(ms, rep, m, tail, i, k);
    }
  }

  lemma InertWithin(m: string, rep: string, tail: string, i: nat)
    requires IsMarker(m) && Inert(rep) && 0 < i < |m| + |rep|
    ensures (m + (rep + tail))[i] != '?' && (m + (rep + tail))[i] != '&'
  {
    assert (m + (rep + tail))[i] == if i < |m| then m[i] else rep[i - |m|];
  }

  /** No marker begins inside a marker or a replacement. */
  lemma NoMarkerWithin(m: string, rep: string, tail: string, i: nat, n: string)
    requires IsMarker(m) && IsMarker(n) && Inert(rep) && 0 < i <= |m + (rep + tail)|
    requires StartsWith((m + (rep + tail))[i..], n)
    ensures i >= |m| + |rep|
  {
    var s := m + (rep + tail);
    assert s[i..][..|n|][0] == s[i];
    if i < |m| + |rep| {
      InertWithin(m, rep, tail, i);
      assert false;
    }
  }

  lemma AllNamesGiveMarkers()
    ensures AllMarkers(Markers(NAMES))
  {
    NamesGiveMarkers(|NAMES|);
    assert NAMES[..|NAMES|] == NAMES;
  }

  function Redacted(t: string): string { Scrub(Markers(NAMES), REDACTED, t) }

  /** The token with every marked value removed. */
  function Erased(t: string): string { Scrub(Markers(NAMES), "", t) }

  /** What may precede a secret in a query. */
  const SECRET_MARKERS: set<string> := {
    "?key=", "&key=", "?api_key=", "&api_key=", "?apikey=", "&apikey=", "?access_token=", "&access_token=",
    "?token=", "&token=", "?authorization=", "&authorization=", "?app_secret=", "&app_secret="
  }

  lemma {:induction false} MarkersOf(names: seq<string>, m: string)
    ensures m in Markers(names) <==>
      exists i :: 0 <= i < |names| && (m == "?" + names[i] + "=" || m == "&" + names[i] + "=")
  {
    if names != [] {
      var n := |names| - 1;
      MarkersOf(names[..n], m);
      assert Markers(names) == Markers(names[..n]) + ["?" + names[n] + "="] + ["&" + names[n] + "="];
      if m in Markers(names[..n]) {
        var i :| 0 <= i < n && (m == "?" + names[..n][i] + "=" || m == "&" + names[..n][i] + "=");
        assert names[..n][i] == names[i];
      }
      if i :| 0 <= i < |names| && (m == "?" + names[i] + "=" || m == "&" + names[i] + "=") {
        assert i < n ==> names[..n][i] == names[i];
      }
    }
  }

  lemma FirstParameters()
    ensures |NAMES| == 7
    ensures "?" + NAMES[0] + "=" == "?key="
    ensures "?" + NAMES[1] + "=" == "?api_key="
    ensures "?" + NAMES[2] + "=" == "?apikey="
    ensures "?" + NAMES[3] + "=" == "?access_token="
    ensures "?" + NAMES[4] + "=" == "?token="
    ensures "?" + NAMES[5] + "=" == "?authorization="
    ensures "?" + NAMES[6] + "=" == "?app_secret="
  {
    assert "?" + "key" + "=" == "?key=";
    assert "?" + "api_key" + "=" == "?api_key=";
    assert "?" + "apikey" + "=" == "?apikey=";
    assert "?" + "access_token" + "=" == "?access_token=";
    assert "?" + "token" + "=" == "?token=";
    assert "?" + "authorization" + "=" == "?authorization=";
    assert "?" + "app_secret" + "=" == "?app_secret=";
  }

  lemma NextParameters()
    ensures |NAMES| == 7
    ensures "&" + NAMES[0] + "=" == "&key="
    ensures "&" + NAMES[1] + "=" == "&api_key="
    ensures "&" + NAMES[2] + "=" == "&apikey="
    ensures "&" + NAMES[3] + "=" == "&access_token="
    ensures "&" + NAMES[4] + "=" == "&token="
    ensures "&" + NAMES[5] + "=" == "&authorization="
    ensures "&" + NAMES[6] + "=" == "&app_secret="
  {
    assert "&" + "key" + "=" == "&key=";
    assert "&" + "api_key" + "=" == "&api_key=";
    assert "&" + "apikey" + "=" == "&apikey=";
    assert "&" + "access_token" + "=" == "&access_token=";
    assert "&" + "token" + "=" == "&token=";
    assert "&" + "authorization" + "=" == "&authorization=";
    assert "&" + "app_secret" + "=" == "&app_secret=";
  }

  /** The passes are made for these markers and no others. */
  lemma MarkersAreSecret(m: string)
    ensures m in Markers(NAMES) <==> m in SECRET_MARKERS
  {
    MarkersOf(NAMES, m);
    FirstParameters();
    NextParameters();
    if i :| 0 <= i < |NAMES| && (m == "?" + NAMES[i] + "=" || m == "&" + NAMES[i] + "=") {
      assert i in {0, 1, 2, 3, 4, 5, 6};
    }
  }

  /** Wherever something may precede a secret, only the replacement follows, up to the next
      parameter or the end. */
  ghost predicate Hidden(t: string) {
    forall i, m :: 0 <= i <= |t| && m in SECRET_MARKERS && m <= t[i..] ==> Follows(t[i..][|m|..])
  }

  predicate Follows(after: string) {
    "[REDACTED]" <= after && (|after| == 10 || after[10] == '&')
  }

  lemma HiddenAt(t: string, i: nat, m: string)
    requires i <= |Redacted(t)| && m in SECRET_MARKERS && m <= Redacted(t)[i..]
    ensures Follows(Redacted(t)[i..][|m|..])
  {
    AllNamesGiveMarkers();
    var r, ms := Redacted(t), Markers(NAMES);
    ScrubIsClean(ms, REDACTED, t);
    MarkersAreSecret(m);
    var k :| 0 <= k < |ms| && ms[k] == m;
    assert StartsWith(r[i..], ms[k]);
    assert Replaced(r[i + |m|..], REDACTED);
    assert r[i + |m|..] == r[i..][|m|..];
  }

  /** No marked value survives, for any marker: later passes never break earlier ones. */
  lemma RedactedIsClean(t: string)
    ensures Hidden(Redacted(t))
  {
    forall i, m | 0 <= i <= |Redacted(t)| && m in SECRET_MARKERS && m <= Redacted(t)[i..]
      ensures Follows(Redacted(t)[i..][|m|..])
    {
      HiddenAt(t, i, m);
    }
  }

  /** No secret begins in `t` before position `n`. */
  ghost predicate NoSecretBefore(t: string, n: nat) {
    forall i, m :: 0 <= i < n && i <= |t| && m in SECRET_MARKERS ==> !(m <= t[i..])
  }

  lemma NoMatchBefore(t: string, n: nat, i: nat)
    requires NoSecretBefore(t, n) && i < n && i <= |t|
    ensures FirstMatch(Markers(NAMES), t[i..]).None?
  {
    if FirstMatch(Markers(NAMES), t[i..]).Some? {
      MarkersAreSecret(FirstMatch(Markers(NAMES), t[i..]).value);
    }
  }

  /** Text without a secret stays as it is. */
  lemma PlainTextIsKept(t: string)
    requires NoSecretBefore(t, |t| + 1)
    ensures Redacted(t) == t
  {
    forall i | 0 <= i <= |t| ensures FirstMatch(Markers(NAMES), t[i..]).None? {
      NoMatchBefore(t, |t| + 1, i);
    }
    ScrubWithout(Markers(NAMES), REDACTED, t);
  }

  lemma {:induction false} ScrubBefore(ms: seq<string>, rep: string, before: string, u: string)
    requires forall i :: 0 <= i < |before| ==> FirstMatch(ms, (before + u)[i..]).None?
    ensures Scrub(ms, rep, before + u) == before + Scrub(ms, rep, u)
  {
    if before == [] {
      assert before + u == u;
    } else {
      var t, rest := before + u, before[1..];
      assert t[0..] == t && t[1..] == rest + u;
      forall i | 0 <= i < |rest| ensures FirstMatch(ms, (rest + u)[i..]).None? {
        assert (rest + u)[i..] == t[i + 1..];
      }
      ScrubBefore(ms, rep, rest, u);
      assert [t[0]] + (rest + Scrub(ms, rep, u)) == before + Scrub(ms, rep, u);
    }
  }

  /** The first secret is replaced up to the next parameter or the end, what stands before
      it is kept, and the rest is redacted in turn. With the lemma above this says of every
      text what it is redacted to. */
  lemma FirstSecretIsReplaced(before: string, m: string, value: string, rest: string)
    requires m in SECRET_MARKERS && '&' !in value && (rest == "" || rest[0] == '&')
    requires NoSecretBefore(before + (m + (value + rest)), |before|)
    ensures Redacted(before + (m + (value + rest))) == before + (m + "[REDACTED]" + Redacted(rest))
  {
    AllNamesGiveMarkers();
    var u, t, ms := m + (value + rest), before + (m + (value + rest)), Markers(NAMES);
    forall i | 0 <= i < |before| ensures FirstMatch(ms, t[i..]).None? {
      NoMatchBefore(t, |before|, i);
    }
    ScrubBefore(ms, REDACTED, before, u);
    MarkersAreSecret(m);
    MatchOf(ms, m, u);
    assert u[|m|..] == value + rest;
    SkipOverValue(value, rest);
    SkipAtBoundary(rest);
  }

  lemma RedactionIsIdempotent(t: string)
    ensures Redacted(Redacted(t)) == Redacted(t)
  {
    AllNamesGiveMarkers();
    ScrubAgain(Markers(NAMES), REDACTED, REDACTED, t);
  }

  /** The text outside the values is unchanged, and the result depends on nothing
      else: tokens that differ only inside marked values are redacted alike. */
  lemma RedactionKeepsContextOnly(t: string, u: string)
    ensures Erased(Redacted(t)) == Erased(t)
    ensures Erased(t) == Erased(u) <==> Redacted(t) == Redacted(u)
  {
    AllNamesGiveMarkers();
    var ms := Markers(NAMES);
    ScrubAgain(ms, REDACTED, "", t);
    ScrubAgain(ms, REDACTED, "", u);
    ScrubAgain(ms, "", REDACTED, t);
    ScrubAgain(ms, "", REDACTED, u);
  }
}
