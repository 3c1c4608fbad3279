/** `redact`: replacing every secret in a text with a fixed marker. */
module Redaction {
  import opened Sorting

  const MARKER := "[REDACTED]"

  /** `str.replace`: leftmost occurrences, not overlapping. */
  function Replace(text: string, secret: string): string
    requires secret != ""
    decreases |text|
  {
    if text == "" then ""
    else if secret <= text then MARKER + Replace(text[|secret|..], secret)
    else [text[0]] + Replace(text[1..], secret)
  }

  predicate Occurs(u: string, text: string) {
    u <= text || (text != "" && Occurs(u, text[1..]))
  }

  /** The passes of the loop, one secret after another. */
  function Passes(text: string, secrets: seq<string>): string
    requires "" !in secrets
    decreases |secrets|
  {
    if secrets == [] then text else Passes(Replace(text, secrets[0]), secrets[1..])
  }

  function Distincts(secrets: seq<string>): seq<string> {
    if secrets == [] then []
    else
      var rest := Distincts(secrets[..|secrets| - 1]);
      var last := secrets[|secrets| - 1];
      if last == "" || last in rest then rest else rest + [last]
  }

  function LongerFirst(): (string, string) -> bool {
    (a: string, b: string) => |a| >= |b|
  }

  /** The distinct non-empty secrets, longest first. */
  function PassOrder(secrets: seq<string>): seq<string> {
    Sort(Distincts(secrets), LongerFirst())
  }

  method Redact(text: string, secrets: seq<string>) returns (out: string)
    ensures "" !in PassOrder(secrets) && out == Passes(text, PassOrder(secrets))
  {
    PassOrderFacts(secrets);
    var order := PassOrder(secrets);
    assert "" !in order;
    hide PassOrder;
    out := text;
    for i := 0 to |order|
      invariant "" !in order[i..] && Passes(text, order) == Passes(out, order[i..])
    {
      assert order[i..][0] == order[i] && order[i..][1..] == order[i + 1..];
      out := Replace(out, order[i]);
    }
  }

  lemma {:induction false} DistinctsFacts(secrets: seq<string>)
    ensures Distinct(Distincts(secrets))
    ensures forall s :: s in Distincts(secrets) <==> s in secrets && s != ""
  {
    if secrets != [] {
      DistinctsFacts(secrets[..|secrets| - 1]);
      assert secrets == secrets[..|secrets| - 1] + [secrets[|secrets| - 1]];
    }
  }

  ghost predicate LongestFirst(secrets: seq<string>) {
    forall i, j :: 0 <= i < j < |secrets| ==> |secrets[i]| >= |secrets[j]| && secrets[i] != secrets[j]
  }

  lemma PassOrderFacts(secrets: seq<string>)
    ensures LongestFirst(PassOrder(secrets))
    ensures forall s :: s in PassOrder(secrets) <==> s in secrets && s != ""
  {
    var distinct, order := Distincts(secrets), PassOrder(secrets);
    DistinctsFacts(secrets);
    SortPermutes(distinct, LongerFirst());
    SortSorts(distinct, LongerFirst());
    DistinctPermutes(distinct, order);
    forall s
      ensures s in order <==> s in distinct
    {
      assert s in order <==> s in multiset(order);
      assert s in distinct <==> s in multiset(distinct);
    }
    forall i, j | 0 <= i < j < |order|
      ensures |order[i]| >= |order[j]|
    {
      assert LongerFirst()(order[i], order[j]);
    }
  }

  // --- When a secret could show through a marker -------------------------------------------

  /** From position `i` of `u` and `j` of the marker on, the two agree as far as both go. */
  predicate AgreeFrom(u: string, i: nat, j: nat)
    requires i <= |u| && j <= |MARKER|
  {
    var a, b := u[i..], MARKER[j..];
    forall k :: 0 <= k < |a| && k < |b| ==> a[k] == b[k]
  }

  /** `u` can be laid over the marker so that they overlap: it could be read partly off a marker. */
  ghost predicate Touches(u: string) {
    exists i: nat, j: nat :: i < |u| && j < |MARKER| && (i == 0 || j == 0) && AgreeFrom(u, i, j)
  }

  lemma StartsAtMarker(u: string, i: nat, rest: string)
    requires i < |u| && u[i..] <= MARKER + rest
    ensures Touches(u)
  {
    var a := u[i..];
    assert forall k :: 0 <= k < |a| ==> a[k] == (MARKER + rest)[k];
    assert MARKER[0..] == MARKER;
    assert AgreeFrom(u, i, 0);
  }

  /** A part of `u` at the front of a replaced text was at the front of the text. */
  lemma {:induction false} PrefixWasThere(u: string, i: nat, text: string, secret: string)
    requires secret != "" && i <= |u| && !Touches(u)
    requires u[i..] <= Replace(text, secret)
    ensures u[i..] <= text
    decreases |text|
  {
    if i < |u| {
      assert u[i..] == [u[i]] + u[i + 1..];
      if secret <= text {
        StartsAtMarker(u, i, Replace(text[|secret|..], secret));
      } else {
        var out := Replace(text[1..], secret);
        assert u[i + 1..] <= out by {
          assert forall k :: 0 <= k < |u[i + 1..]| ==> u[i + 1..][k] == u[i..][k + 1] == ([text[0]] + out)[k + 1] == out[k];
        }
        PrefixWasThere(u, i + 1, text[1..], secret);
        assert u[i] == text[0];
        assert text == [text[0]] + text[1..];
      }
    }
  }

  lemma OccursAt(u: string, text: string, p: nat)
    requires p <= |text| && u <= text[p..]
    ensures Occurs(u, text)
  {
    if p > 0 {
      assert text[1..][p - 1..] == text[p..];
      OccursAt(u, text[1..], p - 1);
    }
  }

  lemma {:induction false} OccurrencePosition(u: string, text: string) returns (p: nat)
    requires Occurs(u, text)
    ensures p <= |text| && u <= text[p..]
  {
    if u <= text {
      p := 0;
      assert text[0..] == text;
    } else {
      p := OccurrencePosition(u, text[1..]);
      assert text[1..][p..] == text[p + 1..];
      p := p + 1;
    }
  }

  /** An occurrence that starts inside a marker overlaps it. */
  lemma StartsInMarker(u: string, rest: string, p: nat)
    requires u != "" && p < |MARKER| && u <= (MARKER + rest)[p..]
    ensures Touches(u)
  {
    var b := MARKER[p..];
    assert (MARKER + rest)[p..] == b + rest;
    assert forall k :: 0 <= k < |u| ==> u[k] == (b + rest)[k];
    assert u[0..] == u;
    assert AgreeFrom(u, 0, p);
  }

  /** Replacing makes no new occurrences of what does not touch the marker. */
  lemma {:induction false} NothingNew(u: string, text: string, secret: string)
    requires secret != "" && u != "" && !Touches(u)
    requires Occurs(u, Replace(text, secret))
    ensures Occurs(u, text)
    decreases |text|
  {
    if text != "" {
      if secret <= text {
        var rest := Replace(text[|secret|..], secret);
        var p := OccurrencePosition(u, MARKER + rest);
        if p < |MARKER| {
          StartsInMarker(u, rest, p);
        } else {
          assert (MARKER + rest)[p..] == rest[p - |MARKER|..];
          OccursAt(u, rest, p - |MARKER|);
          NothingNew(u, text[|secret|..], secret);
          var q := OccurrencePosition(u, text[|secret|..]);
          assert text[|secret|..][q..] == text[|secret| + q..];
          OccursAt(u, text, |secret| + q);
        }
      } else {
        var rest := Replace(text[1..], secret);
        assert ([text[0]] + rest)[1..] == rest;
        if u <= [text[0]] + rest {
          assert u[0..] == u;
          PrefixWasThere(u, 0, text, secret);
        } else {
          NothingNew(u, text[1..], secret);
        }
      }
    }
  }

  /** The secret just replaced is gone. */
  lemma {:induction false} ReplacedIsGone(text: string, secret: string)
    requires secret != "" && !Touches(secret)
    ensures !Occurs(secret, Replace(text, secret))
    decreases |text|
  {
    if Occurs(secret, Replace(text, secret)) && text != "" {
      if secret <= text {
        var rest := Replace(text[|secret|..], secret);
        var p := OccurrencePosition(secret, MARKER + rest);
        if p < |MARKER| {
          StartsInMarker(secret, rest, p);
        } else {
          assert (MARKER + rest)[p..] == rest[p - |MARKER|..];
          OccursAt(secret, rest, p - |MARKER|);
          ReplacedIsGone(text[|secret|..], secret);
        }
      } else {
        var rest := Replace(text[1..], secret);
        assert ([text[0]] + rest)[1..] == rest;
        if secret <= [text[0]] + rest {
          assert secret[0..] == secret;
          PrefixWasThere(secret, 0, text, secret);
        } else {
          ReplacedIsGone(text[1..], secret);
        }
      }
    }
  }

  /** After all the passes, no secret occurs anywhere: not in the text, not across the seam of a
      replacement, and not because of a later pass. */
  lemma {:induction false} NoSecretSurvives(text: string, secrets: seq<string>, s: string)
    requires "" !in secrets && s in secrets && forall x :: x in secrets ==> !Touches(x)
    ensures !Occurs(s, Passes(text, secrets))
    decreases |secrets|
  {
    if s == secrets[0] {
      ReplacedIsGone(text, s);
      StaysGone(Replace(text, s), secrets[1..], s);
    } else {
      NoSecretSurvives(Replace(text, secrets[0]), secrets[1..], s);
    }
  }

  lemma {:induction false} StaysGone(text: string, secrets: seq<string>, u: string)
    requires "" !in secrets && u != "" && !Touches(u) && !Occurs(u, text)
    ensures !Occurs(u, Passes(text, secrets))
    decreases |secrets|
  {
    if secrets != [] {
      if Occurs(u, Replace(text, secrets[0])) {
        NothingNew(u, text, secrets[0]);
      }
      StaysGone(Replace(text, secrets[0]), secrets[1..], u);
    }
  }

  // --- Text without secrets -------------------------------------------------------------------

  lemma {:induction false} ReplaceNothing(text: string, secret: string)
    requires secret != "" && !Occurs(secret, text)
    ensures Replace(text, secret) == text
  {
    if text != "" {
      ReplaceNothing(text[1..], secret);
      assert text == [text[0]] + text[1..];
    }
  }

  /** Text that holds no secret comes through as it was. */
  lemma {:induction false} SecretFreeTextIsUnchanged(text: string, secrets: seq<string>)
    requires "" !in secrets && forall s :: s in secrets ==> !Occurs(s, text)
    ensures Passes(text, secrets) == text
  {
    if secrets != [] {
      ReplaceNothing(text, secrets[0]);
      SecretFreeTextIsUnchanged(text, secrets[1..]);
    }
  }

  // --- Secrets without brackets: exactly when it works ------------------------------------------

  const WORD := "REDACTED"

  predicate BracketFree(u: string) {
    '[' !in u && ']' !in u
  }

  lemma TouchIsInside(u: string, i: nat, j: nat)
    requires BracketFree(u) && i < |u| && j < |MARKER| && (i == 0 || j == 0) && AgreeFrom(u, i, j)
    ensures i == 0 && 1 <= j && j + |u| <= 9
  {
    var a, b := u[i..], MARKER[j..];
    assert a[0] == b[0] && a[0] in u;
    assert u[0..] == u;
    forall k | 0 <= k < |u| && k < |b|
      ensures b[k] != ']'
    {
      assert u[k] == a[k] && u[k] in u;
    }
    assert b[9 - j] == ']';
  }

  lemma TouchIsInTheWord(u: string, j: nat)
    requires 1 <= j && j + |u| <= 9 && AgreeFrom(u, 0, j)
    ensures u <= WORD[j - 1..]
  {
    var b := MARKER[j..];
    assert u[0..] == u;
    assert forall k :: 0 <= k < |u| ==> u[k] == b[k];
    assert MARKER[1..9] == WORD;
    var w := WORD[j - 1..];
    assert forall k :: 0 <= k < |u| ==> w[k] == MARKER[1..9][j - 1 + k] == MARKER[j + k] == b[k];
  }

  /** A bracket-free string touches the marker exactly when it is part of the word inside it. */
  lemma BracketFreeTouches(u: string)
    requires BracketFree(u) && u != ""
    ensures Touches(u) <==> Occurs(u, WORD)
  {
    if Touches(u) {
      var i: nat, j: nat :| i < |u| && j < |MARKER| && (i == 0 || j == 0) && AgreeFrom(u, i, j);
      TouchIsInside(u, i, j);
      TouchIsInTheWord(u, j);
      OccursAt(u, WORD, j - 1);
    }
    if Occurs(u, WORD) {
      var p := OccurrencePosition(u, WORD);
      assert WORD[p..] + "]" == (MARKER + "")[p + 1..];
      StartsInMarker(u, "", p + 1);
    }
  }

  lemma NotInMarker(u: string)
    requires BracketFree(u) && u != "" && !Occurs(u, WORD)
    ensures !Occurs(u, MARKER)
  {
    if Occurs(u, MARKER) {
      var p := OccurrencePosition(u, MARKER);
      assert p < |MARKER|;
      assert MARKER + "" == MARKER;
      StartsInMarker(u, "", p);
      BracketFreeTouches(u);
    }
  }

  lemma {:induction false} LongerDoesNotOccur(u: string, text: string)
    requires |u| >= |text| && u != text
    ensures !Occurs(u, text)
  {
    assert text[..|text|] == text;
    if text != "" {
      LongerDoesNotOccur(u, text[1..]);
    }
  }

  lemma {:induction false} PassesConcat(text: string, a: seq<string>, b: seq<string>)
    requires "" !in a && "" !in b
    ensures "" !in a + b && Passes(text, a + b) == Passes(Passes(text, a), b)
    decreases |a|
  {
    if a == [] {
      assert a + b == b;
    } else {
      assert (a + b)[0] == a[0] && (a + b)[1..] == a[1..] + b;
      PassesConcat(Replace(text, a[0]), a[1..], b);
    }
  }

  /** Longest first, a text that is one secret becomes one marker up to its own pass. */
  lemma OwnPass(secrets: seq<string>, n: nat)
    requires LongestFirst(secrets) && "" !in secrets && n < |secrets|
    ensures Passes(secrets[n], secrets) == Passes(MARKER, secrets[n + 1..])
  {
    hide LongestFirst, Replace, Occurs, Passes;
    var s := secrets[n];
    EarlierPasses(secrets, n);
    SplitAt(secrets, n);
    WholeText(s);
    PassesConcat(s, secrets[..n], [s] + secrets[n + 1..]);
    OnePass(s, s, secrets[n + 1..]);
  }

  lemma SplitAt(secrets: seq<string>, n: nat)
    requires n < |secrets| && "" !in secrets
    ensures secrets == secrets[..n] + ([secrets[n]] + secrets[n + 1..])
    ensures secrets[n] != "" && "" !in secrets[..n] && "" !in secrets[n + 1..] && "" !in [secrets[n]] + secrets[n + 1..]
  {
    assert secrets[n] in secrets;
  }

  lemma OnePass(text: string, s: string, rest: seq<string>)
    requires s != "" && "" !in rest
    ensures Passes(text, [s] + rest) == Passes(Replace(text, s), rest)
  {
    hide Replace;
    assert ([s] + rest)[1..] == rest;
  }

  lemma EarlierPasses(secrets: seq<string>, n: nat)
    requires LongestFirst(secrets) && "" !in secrets && n < |secrets|
    ensures "" !in secrets[..n] && Passes(secrets[n], secrets[..n]) == secrets[n]
  {
    forall x | x in secrets[..n]
      ensures x != "" && !Occurs(x, secrets[n])
    {
      var k :| 0 <= k < n && secrets[k] == x;
      LongerDoesNotOccur(x, secrets[n]);
    }
    hide Replace, Occurs;
    SecretFreeTextIsUnchanged(secrets[n], secrets[..n]);
  }

  lemma WholeText(s: string)
    requires s != ""
    ensures Replace(s, s) == MARKER
  {
    assert s[|s|..] == "" && MARKER + "" == MARKER;
  }

  /** When no secret is part of the marker, a text that is one secret comes out as the bare marker:
      nothing of it is left, whatever shorter secrets it contains. */
  lemma WholeSecretBecomesTheMarker(secrets: seq<string>, s: string)
    requires LongestFirst(secrets) && "" !in secrets && s in secrets
    requires forall x :: x in secrets ==> !Occurs(x, MARKER)
    ensures Passes(s, secrets) == MARKER
  {
    var n :| 0 <= n < |secrets| && secrets[n] == s;
    OwnPass(secrets, n);
    SecretFreeTextIsUnchanged(MARKER, secrets[n + 1..]);
  }

  /** The last secret, in pass order, that is part of the word. */
  lemma {:induction false} LastInWord(secrets: seq<string>, n: nat) returns (m: nat)
    requires n < |secrets| && Occurs(secrets[n], WORD)
    ensures n <= m < |secrets| && Occurs(secrets[m], WORD)
    ensures forall k :: m < k < |secrets| ==> !Occurs(secrets[k], WORD)
    decreases |secrets| - n
  {
    if k :| n < k < |secrets| && Occurs(secrets[k], WORD) {
      m := LastInWord(secrets, k);
    } else {
      m := n;
    }
  }

  ghost predicate HidesEverySecret(secrets: seq<string>)
    requires "" !in secrets
  {
    forall text: string, s :: s in secrets ==> !Occurs(s, Passes(text, secrets))
  }

  /** A secret that is part of the word, with none after it in pass order, is shown by its own marker. */
  lemma PartOfTheWordShows(secrets: seq<string>, m: nat)
    requires LongestFirst(secrets) && "" !in secrets && (forall s :: s in secrets ==> BracketFree(s))
    requires m < |secrets| && Occurs(secrets[m], WORD)
    requires forall k :: m < k < |secrets| ==> !Occurs(secrets[k], WORD)
    ensures Occurs(secrets[m], Passes(secrets[m], secrets))
  {
    OwnPass(secrets, m);
    LaterPasses(secrets, m);
    InTheWordIsInTheMarker(secrets[m]);
  }

  lemma LaterPasses(secrets: seq<string>, m: nat)
    requires "" !in secrets && (forall s :: s in secrets ==> BracketFree(s)) && m < |secrets|
    requires forall k :: m < k < |secrets| ==> !Occurs(secrets[k], WORD)
    ensures "" !in secrets[m + 1..] && Passes(MARKER, secrets[m + 1..]) == MARKER
  {
    forall x | x in secrets[m + 1..]
      ensures x != "" && !Occurs(x, MARKER)
    {
      var k :| 0 <= k < |secrets[m + 1..]| && secrets[m + 1..][k] == x;
      assert x == secrets[m + 1 + k] && x in secrets;
      NotInMarker(x);
    }
    hide Occurs, Replace;
    SecretFreeTextIsUnchanged(MARKER, secrets[m + 1..]);
  }

  lemma InTheWordIsInTheMarker(u: string)
    requires Occurs(u, WORD)
    ensures Occurs(u, MARKER)
  {
    var p := OccurrencePosition(u, WORD);
    assert MARKER[p + 1..] == WORD[p..] + "]";
    OccursAt(u, MARKER, p + 1);
  }

  /** For secrets without brackets, no text ever shows a secret after redaction if and only if no secret
      is part of the word REDACTED. */
  lemma HidesIffNotPartOfTheWord(secrets: seq<string>)
    requires LongestFirst(secrets) && "" !in secrets && forall s :: s in secrets ==> BracketFree(s)
    ensures HidesEverySecret(secrets) <==> forall s :: s in secrets ==> !Occurs(s, WORD)
  {
    hide Occurs, Passes, BracketFree;
    if forall s :: s in secrets ==> !Occurs(s, WORD) {
      forall s | s in secrets
        ensures !Touches(s)
      {
        BracketFreeTouches(s);
      }
      forall text: string, s | s in secrets
        ensures !Occurs(s, Passes(text, secrets))
      {
        NoSecretSurvives(text, secrets, s);
      }
    } else {
      var s :| s in secrets && Occurs(s, WORD);
      var n :| 0 <= n < |secrets| && secrets[n] == s;
      var m := LastInWord(secrets, n);
      PartOfTheWordShows(secrets, m);
      assert secrets[m] in secrets;
    }
  }

  /** With a bracket it can fail: replacing once leaves the secret again, across the seam. */
  lemma BracketCanShowThrough()
    ensures Passes("]xx", ["]x"]) == "[REDACTED]x" && Occurs("]x", "[REDACTED]x")
  {
    assert Replace("x", "]x") == "x" by {
      assert "x"[1..] == "";
    }
    assert "]xx"[2..] == "x";
    assert ["]x"][1..] == [];
    assert "[REDACTED]x"[9..] == "]x";
    OccursAt("]x", "[REDACTED]x", 9);
  }

  // --- One secret of any kind: exactly when it can show -------------------------------------------

  /** In the first `i` characters of `s` followed by `s`, it occurs no earlier than there. */
  predicate FirstAt(s: string, i: nat)
    requires i <= |s|
  {
    forall p :: 0 <= p < i ==> !(s <= (s[..i] + s)[p..])
  }

  /** The secret is part of the marker; or it begins with an end of the marker and goes on; or, from some
      position on, it runs as the marker does, and the text before it and it do not hold it earlier. */
  ghost predicate CanShow(s: string) {
    || Occurs(s, MARKER)
    || (exists j :: 0 <= j < |MARKER| && |MARKER| - j < |s| && MARKER[j..] <= s)
    || (exists i :: 0 < i < |s| && (s[i..] <= MARKER || MARKER <= s[i..]) && FirstAt(s, i))
  }

  /** Where a text is replaced first. */
  lemma {:induction false} FirstReplacement(text: string, s: string) returns (i: nat)
    requires s != "" && Occurs(s, text)
    ensures i + |s| <= |text| && s <= text[i..] && forall p :: 0 <= p < i ==> !(s <= text[p..])
    ensures Replace(text, s) == text[..i] + (MARKER + Replace(text[i + |s|..], s))
    decreases |text|
  {
    if s <= text {
      i := 0;
      assert text[0..] == text && text[..0] == "";
    } else {
      var k := FirstReplacement(text[1..], s);
      i := k + 1;
      assert Replace(text, s) == [text[0]] + Replace(text[1..], s);
      hide Replace, Occurs;
      OneFurther(text, s, k);
      Spliced([text[0]], text[1..][..k], MARKER + Replace(text[i + |s|..], s));
    }
  }

  lemma OneFurther(text: string, s: string, k: nat)
    requires text != "" && !(s <= text) && k + |s| <= |text| - 1 && s <= text[1..][k..]
    requires forall p :: 0 <= p < k ==> !(s <= text[1..][p..])
    ensures s <= text[k + 1..] && text[1..][k + |s|..] == text[k + 1 + |s|..] && text[..k + 1] == [text[0]] + text[1..][..k]
    ensures forall p :: 0 <= p < k + 1 ==> !(s <= text[p..])
  {
    assert text[0..] == text;
    forall p | 0 < p < k + 1
      ensures !(s <= text[p..])
    {
      assert text[p..] == text[1..][p - 1..];
    }
    assert text[k + 1..] == text[1..][k..];
  }

  lemma Spliced(a: string, b: string, c: string)
    ensures a + (b + c) == a + b + c
  {
  }

  /** A secret at the front of a replaced text that was not at the front of the text. */
  lemma FrontShows(text: string, s: string)
    requires s != "" && s <= Replace(text, s) && !(s <= text)
    ensures CanShow(s)
  {
    if !Occurs(s, text) {
      ReplaceNothing(text, s);
    } else {
      var i := FirstReplacement(text, s);
      assert text[0..] == text;
      var out := MARKER + Replace(text[i + |s|..], s);
      hide Replace;
      FrontParts(text, s, i, out);
      assert out == MARKER + out[|MARKER|..];
      PrefixOfSum(s[i..], MARKER, out[|MARKER|..]);
      FirstStays(text, s, i);
    }
  }

  lemma PrefixOfSum(t: string, a: string, b: string)
    requires t <= a + b
    ensures t <= a || a <= t
  {
    assert forall k :: 0 <= k < |t| ==> t[k] == (a + b)[k];
  }

  lemma FrontParts(text: string, s: string, i: nat, out: string)
    requires s != "" && i + |s| <= |text| && s <= text[i..] && s <= text[..i] + out && !(s <= text)
    ensures 0 < i < |s| && s[..i] == text[..i] && s[i..] <= out
  {
    assert text[0..] == text && text[..i] + text[i..] == text;
    var all := text[..i] + out;
    assert s == all[..|s|];
    assert i <= |s| ==> s[..i] == all[..i] == text[..i] && s[i..] == all[i..][..|s| - i] && all[i..] == out;
  }

  lemma PrefixAcross(s: string, a: string, b: string)
    requires |s| <= |a|
    ensures s <= a + b <==> s <= a
  {
    assert (a + b)[..|s|] == a[..|s|];
  }

  /** More text behind it does not change where `s` occurs first. */
  lemma FirstWithMore(s: string, i: nat, more: string)
    requires i <= |s|
    ensures FirstAt(s, i) <==> forall p :: 0 <= p < i ==> !(s <= (s[..i] + s + more)[p..])
  {
    var both := s[..i] + s;
    forall p | 0 <= p < i
      ensures s <= both[p..] <==> s <= (both + more)[p..]
    {
      assert (both + more)[p..] == both[p..] + more;
      PrefixAcross(s, both[p..], more);
    }
  }

  lemma FirstStays(text: string, s: string, i: nat)
    requires i < |s| && i + |s| <= |text| && s <= text[i..] && s[..i] == text[..i]
    requires forall p :: 0 <= p < i ==> !(s <= text[p..])
    ensures FirstAt(s, i)
  {
    var more := text[i + |s|..];
    assert text[i..] == s + more;
    assert text == s[..i] + s + more;
    hide FirstAt;
    FirstWithMore(s, i, more);
  }

  lemma StartsInMarkerShows(s: string, rest: string, p: nat)
    requires s != "" && p < |MARKER| && s <= (MARKER + rest)[p..]
    ensures CanShow(s)
  {
    assert (MARKER + rest)[p..] == MARKER[p..] + rest;
    PrefixOfSum(s, MARKER[p..], rest);
    if s <= MARKER[p..] {
      OccursAt(s, MARKER, p);
    }
    hide Occurs, FirstAt;
  }

  lemma BehindMarker(s: string, rest: string, p: nat)
    requires |MARKER| <= p <= |MARKER + rest| && s <= (MARKER + rest)[p..]
    ensures Occurs(s, rest)
  {
    hide Occurs;
    assert (MARKER + rest)[p..] == rest[p - |MARKER|..];
    OccursAt(s, rest, p - |MARKER|);
  }

  lemma {:induction false} ShowingMeansCanShow(text: string, s: string)
    requires s != "" && Occurs(s, Replace(text, s))
    ensures CanShow(s)
    decreases |text|
  {
    hide CanShow;
    if text != "" {
      if s <= text {
        var rest := Replace(text[|s|..], s);
        hide Replace, Occurs;
        var p := OccurrencePosition(s, MARKER + rest);
        if p < |MARKER| {
          StartsInMarkerShows(s, rest, p);
        } else {
          BehindMarker(s, rest, p);
          ShowingMeansCanShow(text[|s|..], s);
        }
      } else {
        var rest := Replace(text[1..], s);
        assert ([text[0]] + rest)[1..] == rest;
        if s <= [text[0]] + rest {
          FrontShows(text, s);
        } else {
          ShowingMeansCanShow(text[1..], s);
        }
      }
    }
  }

  lemma {:induction false} ReplaceAfter(u: string, s: string, rest: string)
    requires s != "" && forall p :: 0 <= p < |u| ==> !(s <= (u + s + rest)[p..])
    ensures Replace(u + s + rest, s) == u + (MARKER + Replace(rest, s))
  {
    var text := u + s + rest;
    if u == "" {
      assert text == s + rest && text[|s|..] == rest;
    } else {
      assert text[0..] == text && text[1..] == u[1..] + s + rest && text[0] == u[0];
      forall p | 0 <= p < |u[1..]|
        ensures !(s <= (u[1..] + s + rest)[p..])
      {
        assert text[1..][p..] == text[p + 1..];
      }
      ReplaceAfter(u[1..], s, rest);
      hide Replace;
      Spliced([u[0]], u[1..], MARKER + Replace(rest, s));
      assert u == [u[0]] + u[1..];
    }
  }

  lemma ShorterStays(text: string, s: string)
    requires |text| < |s|
    ensures Replace(text, s) == text
  {
    LongerDoesNotOccur(s, text);
    ReplaceNothing(text, s);
  }

  /** For one secret, whatever its characters: some text shows it after its own pass if and only if it can. */
  lemma ShowsIff(s: string)
    requires s != ""
    ensures (exists text :: Occurs(s, Replace(text, s))) <==> CanShow(s)
  {
    hide Occurs, Replace, CanShow;
    if text :| Occurs(s, Replace(text, s)) {
      ShowingMeansCanShow(text, s);
    }
    if CanShow(s) {
      var text := ATextThatShows(s);
      assert Occurs(s, Replace(text, s));
    }
  }

  lemma ATextThatShows(s: string) returns (text: string)
    requires s != "" && CanShow(s)
    ensures Occurs(s, Replace(text, s))
  {
    if Occurs(s, MARKER) {
      text := s;
      WholeText(s);
    } else if j :| 0 <= j < |MARKER| && |MARKER| - j < |s| && MARKER[j..] <= s {
      text := ShowsBehind(s, j);
    } else {
      var i :| 0 < i < |s| && (s[i..] <= MARKER || MARKER <= s[i..]) && FirstAt(s, i);
      text := ShowsBefore(s, i);
    }
  }

  lemma ShowsBehind(s: string, j: nat) returns (text: string)
    requires j < |MARKER| && |MARKER| - j < |s| && MARKER[j..] <= s
    ensures Occurs(s, Replace(text, s))
  {
    var more := s[|MARKER| - j..];
    text := s + more;
    ShorterStays(more, s);
    assert "" + s + more == text;
    ReplaceAfter("", s, more);
    hide Replace, Occurs;
    EndAndMore(s, j, more);
    assert "" + (MARKER + more) == MARKER + more;
    OccursAt(s, MARKER + more, j);
  }

  lemma EndAndMore(s: string, j: nat, more: string)
    requires j < |MARKER| && |MARKER| - j < |s| && MARKER[j..] <= s && more == s[|MARKER| - j..]
    ensures s <= (MARKER + more)[j..]
  {
    assert (MARKER + more)[j..] == MARKER[j..] + more;
    assert s == MARKER[j..] + more;
  }

  lemma ShowsBefore(s: string, i: nat) returns (text: string)
    requires 0 < i < |s| && (s[i..] <= MARKER || MARKER <= s[i..]) && FirstAt(s, i)
    ensures Occurs(s, Replace(text, s))
  {
    var more := if MARKER <= s[i..] then s[i + |MARKER|..] else "";
    text := s[..i] + s + more;
    hide Replace, Occurs;
    FirstWithMore(s, i, more);
    ReplaceAfter(s[..i], s, more);
    ShorterStays(more, s);
    FrontOf(s, i, more);
    assert Replace(text, s)[0..] == Replace(text, s);
    OccursAt(s, Replace(text, s), 0);
  }

  lemma FrontOf(s: string, i: nat, more: string)
    requires 0 < i < |s| && (if MARKER <= s[i..] then more == s[i + |MARKER|..] else s[i..] <= MARKER)
    ensures s <= s[..i] + (MARKER + more)
  {
    assert s == s[..i] + s[i..];
    if MARKER <= s[i..] {
      assert s[i..] == MARKER + more;
    } else {
      assert s[i..] == MARKER[..|s| - i];
      assert s[..i] + (MARKER + more) == s + (MARKER[|s| - i..] + more);
    }
  }

  /** "[[" overlaps the marker's front, and can never show. */
  lemma TwoBracketsNeverShow()
    ensures Touches("[[") && !CanShow("[[")
  {
    assert AgreeFrom("[[", 1, 0);
    TwoBracketsAreNotInTheMarker();
    NoEndBegins("[[");
    NotFirst("[[");
    hide Occurs, AgreeFrom, FirstAt;
  }

  lemma NoEndBegins(s: string)
    requires s == "[["
    ensures forall j :: 0 <= j < |MARKER| && |MARKER| - j < |s| ==> !(MARKER[j..] <= s)
  {
    assert MARKER[9] == ']';
    assert MARKER[9..][0] == ']';
  }

  lemma NotFirst(s: string)
    requires s == "[["
    ensures !FirstAt(s, 1)
  {
    var both := s[..1] + s;
    assert both[0..] == both && both[..2] == s;
  }

  lemma TwoBracketsAreNotInTheMarker()
    ensures !Occurs("[[", MARKER)
  {
    assert forall p :: 1 <= p < |MARKER| ==> MARKER[p] != '[';
    if Occurs("[[", MARKER) {
      var p := OccurrencePosition("[[", MARKER);
      hide Occurs;
      SecondCharacter("[[", MARKER, p);
    }
  }

  lemma SecondCharacter(u: string, text: string, p: nat)
    requires p <= |text| && u <= text[p..] && |u| > 1
    ensures p + 1 < |text| && text[p + 1] == u[1]
  {
    assert text[p..][1] == u[1];
  }
}
