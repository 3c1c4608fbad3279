/** Free text into routed segments: what is typed becomes normalized words, filler is dropped, and each
    preposition routes the words after it. */
module SearchTerms {
  import opened Wrappers
  import opened Text

  const MAX_TOKENS: nat := 8
  const MAX_SEGMENTS: nat := 4

  const EMPLOYER_PREPOSITIONS: set<string> := {"at"}
  const PLACE_PREPOSITIONS: set<string> := {"in", "from", "near", "around", "outside"}

  // The filler words, by kind.
  const PRONOUNS: set<string> := {
    "i", "im", "id", "ive", "am", "me", "my", "mine", "we", "us", "our",
    "you", "your", "they", "them", "their"
  }
  const ARTICLES: set<string> := {"a", "an", "the", "this", "that", "these", "those", "there", "here"}
  const AUXILIARIES: set<string> := {"is", "are", "was", "were", "be", "been", "being", "do", "does", "did"}
  const PARTICLES: set<string> := {"and", "or", "of", "to", "for", "with", "please", "all", "any", "every", "some"}
  const SEARCH_VERBS: set<string> := {
    "find", "show", "search", "searching", "look", "looking", "get", "pull", "display", "up", "give"
  }
  const PERSON_NOUNS: set<string> := {
    "alumni", "alum", "alums", "alumnus", "alumna", "alumnae",
    "people", "person", "someone", "anyone", "everyone", "folks", "who", "whom", "whose", "which"
  }
  const STATE_VERBS: set<string> := {
    "works", "work", "working", "worked", "employed",
    "lives", "live", "living", "based", "located", "currently"
  }
  const OTHER_FILLER: set<string> := {"holds", "hold", "has", "have", "named", "called", "active"}

  predicate IsPreposition(w: string) {
    w in EMPLOYER_PREPOSITIONS || w in PLACE_PREPOSITIONS
  }

  predicate IsFiller(w: string) {
    || w in PRONOUNS || w in ARTICLES || w in AUXILIARIES || w in PARTICLES
    || w in SEARCH_VERBS || w in PERSON_NOUNS || w in STATE_VERBS || w in OTHER_FILLER
  }

  /** Of these words nothing is searched for; none of them routes. */
  lemma FillerIs(w: string)
    ensures IsFiller(w) <==> w in {
      "i", "im", "id", "ive", "am", "me", "my", "mine", "we", "us", "our", "you", "your", "they", "them", "their",
      "a", "an", "the", "this", "that", "these", "those", "there", "here",
      "is", "are", "was", "were", "be", "been", "being", "do", "does", "did",
      "and", "or", "of", "to", "for", "with", "please", "all", "any", "every", "some",
      "find", "show", "search", "searching", "look", "looking", "get", "pull", "display",
      "alumni", "alum", "alums", "alumnus", "alumna", "alumnae", "people", "person", "someone", "anyone", "everyone",
      "folks", "who", "whom", "whose", "which", "works", "work", "working", "worked", "employed",
      "lives", "live", "living", "based", "located", "currently", "holds", "hold", "has", "have",
      "up", "give", "named", "called", "active"}
    ensures !(IsFiller(w) && IsPreposition(w))
  {
  }

  // --- Words -----------------------------------------------------------------------------------

  predicate IsAlnum(c: char) {
    'a' <= c <= 'z' || 'A' <= c <= 'Z' || '0' <= c <= '9'
  }

  /** Lower case, with everything but letters and digits deleted. */
  function Normalize(s: string): string {
    if s == "" then "" else NormalizeChar(s[0]) + Normalize(s[1..])
  }

  function NormalizeChar(c: char): string {
    if IsAlnum(c) then [LowerChar(c)] else ""
  }

  predicate IsSeparator(c: char) {
    IsSpace(c) || c == ',' || c == ';' || c == '/' || c == '|'
  }

  /** `q.replace("@", " at ")`. */
  function SpellAt(q: string): string {
    if q == "" then "" else (if q[0] == '@' then " at " else [q[0]]) + SpellAt(q[1..])
  }

  /** How far the text runs before its first separator. */
  function WordEnd(text: string): (n: nat)
    ensures n <= |text| && (n < |text| ==> IsSeparator(text[n]))
    ensures forall i :: 0 <= i < n ==> !IsSeparator(text[i])
  {
    if text == "" || IsSeparator(text[0]) then 0 else 1 + WordEnd(text[1..])
  }

  function SkipSeparators(text: string): (r: string)
    ensures |r| <= |text|
    ensures text != "" && IsSeparator(text[0]) ==> |r| < |text|
  {
    if text != "" && IsSeparator(text[0]) then SkipSeparators(text[1..]) else text
  }

  /** `_SPLIT.split`: the parts between runs of separators, empty at an end that is a separator. */
  function Split(text: string): seq<string>
    decreases |text|
  {
    var n := WordEnd(text);
    if n == |text| then [text] else [text[..n]] + Split(SkipSeparators(text[n..]))
  }

  function Normalized(parts: seq<string>): seq<string> {
    if parts == [] then []
    else
      var w := Normalize(parts[0]);
      (if w == "" then [] else [w]) + Normalized(parts[1..])
  }

  function WordsOf(text: string): seq<string> {
    Normalized(Split(text))
  }

  /** `_words`. */
  function Words(q: string): seq<string> {
    WordsOf(SpellAt(q))
  }

  // --- Segments --------------------------------------------------------------------------------

  datatype Role = Any | Employer | Place

  datatype Segment = Segment(role: Role, tokens: seq<string>, phrase: string)

  datatype Parsed = Parsed(segments: seq<Segment>, singleToken: bool)

  function RoleOf(preposition: string): Role {
    if preposition in EMPLOYER_PREPOSITIONS then Employer else Place
  }

  function Concat(words: seq<string>): string {
    if words == [] then "" else Concat(words[..|words| - 1]) + words[|words| - 1]
  }

  /** A phrase is its words, one after another. */
  lemma {:induction false} PhraseOver(a: seq<string>, b: seq<string>, word: string)
    ensures Concat([]) == "" && Concat([word]) == word && Concat(a + b) == Concat(a) + Concat(b)
  {
    assert [word][..0] == [] && "" + word == word;
    if b == [] {
      assert a + b == a;
    } else {
      var n := |b| - 1;
      assert (a + b)[..|a + b| - 1] == a + b[..n] && (a + b)[|a + b| - 1] == b[n];
      PhraseOver(a, b[..n], word);
    }
  }

  function Seg(role: Role, tokens: seq<string>): Segment {
    Segment(role, tokens, Concat(tokens))
  }

  /** The words up to the first preposition. */
  function ClauseEnd(words: seq<string>): (n: nat)
    ensures n <= |words| && (n < |words| ==> IsPreposition(words[n]))
    ensures forall i :: 0 <= i < n ==> !IsPreposition(words[i])
  {
    if words == [] || IsPreposition(words[0]) then 0 else 1 + ClauseEnd(words[1..])
  }

  function IfAny(role: Role, tokens: seq<string>): seq<Segment> {
    if tokens == [] then [] else [Seg(role, tokens)]
  }

  /** One segment for each stretch of words between prepositions, routed by the one before it. */
  function Segmented(role: Role, words: seq<string>): seq<Segment>
    decreases |words|
  {
    var n := ClauseEnd(words);
    if n == |words| then IfAny(role, words)
    else IfAny(role, words[..n]) + Segmented(RoleOf(words[n]), words[n + 1..])
  }

  predicate NoPreposition(words: seq<string>) {
    forall w <- words :: !IsPreposition(w)
  }

  lemma ClauseOver(words: seq<string>, rest: seq<string>)
    requires NoPreposition(words) && rest != [] && IsPreposition(rest[0])
    ensures ClauseEnd(words + rest) == |words|
  {
    var n := ClauseEnd(words + rest);
    var all := words + rest;
    assert all[|words|] == rest[0];
    assert forall i :: 0 <= i < |words| ==> all[i] == words[i] && words[i] in words;
  }

  /** What is left to do after `i` words: the segments so far, the current one, and the rest. */
  ghost predicate Segmenting(segments: seq<Segment>, role: Role, current: seq<string>, words: seq<string>, i: nat) {
    && i <= |words| && NoPreposition(current)
    && segments + Segmented(role, current + words[i..]) == Segmented(Any, words)
  }

  /** `_segment`. */
  method SegmentWords(words: seq<string>) returns (segments: seq<Segment>)
    ensures segments == Segmented(Any, words)
  {
    segments := [];
    var role := Any;
    var current: seq<string> := [];
    var i := 0;
    assert Segmenting(segments, role, current, words, i) by {
      assert current + words[0..] == words;
    }
    hide *;
    while i < |words|
      invariant 0 <= i <= |words|
      invariant Segmenting(segments, role, current, words, i)
    {
      var word := words[i];
      if IsPreposition(word) {
        SegmentStep(segments, role, current, words, i);
        segments := segments + IfAny(role, current);
        current := [];
        role := RoleOf(word);
      } else {
        KeepStep(segments, role, current, words, i);
        current := current + [word];
      }
      i := i + 1;
    }
    SegmentEnd(segments, role, current, words);
    segments := segments + IfAny(role, current);
  }

  /** At a preposition the words so far are one segment. */
  lemma SegmentedOver(role: Role, current: seq<string>, rest: seq<string>)
    requires NoPreposition(current) && rest != [] && IsPreposition(rest[0])
    ensures Segmented(role, current + rest) == IfAny(role, current) + Segmented(RoleOf(rest[0]), rest[1..])
  {
    ClauseOver(current, rest);
    hide IsPreposition, RoleOf, IfAny, ClauseEnd, NoPreposition;
    var all := current + rest;
    assert all[..|current|] == current && all[|current|] == rest[0];
    assert all[|current| + 1..] == rest[1..];
  }

  lemma SegmentStep(segments: seq<Segment>, role: Role, current: seq<string>, words: seq<string>, i: nat)
    requires i < |words| && IsPreposition(words[i]) && Segmenting(segments, role, current, words, i)
    ensures Segmenting(segments + IfAny(role, current), RoleOf(words[i]), [], words, i + 1)
  {
    SegmentedOver(role, current, words[i..]);
    NoneYet(words, i);
    hide IsPreposition, RoleOf, IfAny, Segmented, NoPreposition, ClauseEnd;
    Regroup(segments, IfAny(role, current), Segmented(RoleOf(words[i]), words[i + 1..]));
  }

  lemma NoneYet(words: seq<string>, i: nat)
    requires i < |words|
    ensures NoPreposition([]) && words[i..][0] == words[i] && words[i..][1..] == words[i + 1..] == [] + words[i + 1..]
  {
  }

  /** Any other word joins them. */
  lemma KeepStep(segments: seq<Segment>, role: Role, current: seq<string>, words: seq<string>, i: nat)
    requires i < |words| && !IsPreposition(words[i]) && Segmenting(segments, role, current, words, i)
    ensures Segmenting(segments, role, current + [words[i]], words, i + 1)
  {
    hide Segmented, IsPreposition;
    assert current + words[i..] == (current + [words[i]]) + words[i + 1..];
  }

  lemma SegmentEnd(segments: seq<Segment>, role: Role, current: seq<string>, words: seq<string>)
    requires Segmenting(segments, role, current, words, |words|)
    ensures segments + IfAny(role, current) == Segmented(Any, words)
  {
    assert current + words[|words|..] == current;
    assert forall i :: 0 <= i < |current| ==> current[i] in current;
  }

  // --- Caps ------------------------------------------------------------------------------------

  function Min(a: nat, b: nat): nat {
    if a < b then a else b
  }

  function Take<T>(s: seq<T>, n: nat): (t: seq<T>)
    ensures t <= s && |t| == Min(n, |s|)
  {
    s[..Min(n, |s|)]
  }

  /** The first segments, with the first tokens of the one the budget ends in. */
  function Capped(segments: seq<Segment>, room: nat, budget: nat): seq<Segment> {
    if segments == [] || room == 0 || budget == 0 then []
    else
      var tokens := Take(segments[0].tokens, budget);
      [Seg(segments[0].role, tokens)] + Capped(segments[1..], room - 1, budget - |tokens|)
  }

  /** `_truncate`. */
  method Truncate(segments: seq<Segment>) returns (kept: seq<Segment>)
    ensures kept == Capped(segments, MAX_SEGMENTS, MAX_TOKENS)
  {
    kept := [];
    var budget: nat := MAX_TOKENS;
    var i := 0;
    assert Capping(segments, kept, i, budget) by {
      assert segments[0..] == segments;
    }
    hide *;
    while i < Min(MAX_SEGMENTS, |segments|)
      invariant 0 <= i <= Min(MAX_SEGMENTS, |segments|)
      invariant Capping(segments, kept, i, budget)
    {
      if budget <= 0 {
        break;
      }
      CapStep(segments, kept, i, budget);
      var tokens := Take(segments[i].tokens, budget);
      budget := budget - |tokens|;
      kept := kept + [Seg(segments[i].role, tokens)];
      i := i + 1;
    }
    CapEnd(segments, kept, i, budget);
  }

  /** What is left to keep after `i` segments. */
  ghost predicate Capping(segments: seq<Segment>, kept: seq<Segment>, i: nat, budget: nat) {
    && i <= MAX_SEGMENTS && i <= |segments|
    && kept + Capped(segments[i..], MAX_SEGMENTS - i, budget) == Capped(segments, MAX_SEGMENTS, MAX_TOKENS)
  }

  lemma CapStep(segments: seq<Segment>, kept: seq<Segment>, i: nat, budget: nat)
    requires Capping(segments, kept, i, budget) && i < |segments| && i < MAX_SEGMENTS && budget > 0
    ensures var tokens := Take(segments[i].tokens, budget);
            |tokens| <= budget && Capping(segments, kept + [Seg(segments[i].role, tokens)], i + 1, budget - |tokens|)
  {
    hide Seg;
    var tokens := Take(segments[i].tokens, budget);
    assert segments[i..][1..] == segments[i + 1..];
    Regroup(kept, [Seg(segments[i].role, tokens)], Capped(segments[i + 1..], MAX_SEGMENTS - i - 1, budget - |tokens|));
  }

  lemma CapEnd(segments: seq<Segment>, kept: seq<Segment>, i: nat, budget: nat)
    requires Capping(segments, kept, i, budget) && (i == Min(MAX_SEGMENTS, |segments|) || budget == 0)
    ensures kept == Capped(segments, MAX_SEGMENTS, MAX_TOKENS)
  {
    hide Seg;
    assert kept + [] == kept;
  }

  // --- The parse -------------------------------------------------------------------------------

  function WithoutFiller(words: seq<string>): seq<string> {
    if words == [] then []
    else (if IsFiller(words[0]) then [] else [words[0]]) + WithoutFiller(words[1..])
  }

  /** What is searched for: the words that are not filler, or all of them when that leaves only
      prepositions. */
  function Content(raw: seq<string>): seq<string> {
    if AllPrepositions(WithoutFiller(raw)) then raw else WithoutFiller(raw)
  }

  /** No word that is not a preposition. */
  predicate AllPrepositions(words: seq<string>) {
    forall w <- words :: IsPreposition(w)
  }

  function ParseWords(raw: seq<string>): Parsed {
    if raw == [] then Parsed([], false)
    else
      var routed := Capped(Segmented(Any, Content(raw)), MAX_SEGMENTS, MAX_TOKENS);
      var segments := if routed == [] then Capped([Seg(Any, raw)], MAX_SEGMENTS, MAX_TOKENS) else routed;
      Parsed(segments, |segments| == 1 && segments[0].role == Any && |segments[0].tokens| == 1)
  }

  /** `parse_free_text`. */
  function ParseFreeText(q: Option<string>): Parsed {
    if q.None? || q.value == "" || Strip(q.value) == "" then Parsed([], false) else ParseWords(Words(q.value))
  }

  /** The parse, through the loops that segment and cap. */
  method Parse(q: Option<string>) returns (parsed: Parsed)
    ensures parsed == ParseFreeText(q)
  {
    if q.None? || q.value == "" || Strip(q.value) == "" {
      return Parsed([], false);
    }
    hide Segmented, Capped, Words, Content;
    var raw := Words(q.value);
    if raw == [] {
      return Parsed([], false);
    }
    var content := Content(raw);
    var routed := SegmentWords(content);
    var segments := Truncate(routed);
    if segments == [] {
      segments := Truncate([Seg(Any, raw)]);
    }
    return Parsed(segments, |segments| == 1 && segments[0].role == Any && |segments[0].tokens| == 1);
  }

  // --- When there is something to search for -----------------------------------------------------

  lemma {:induction false} NormalizeIsEmpty(s: string)
    ensures Normalize(s) != "" <==> HasAlnum(s)
  {
    if s != "" {
      NormalizeIsEmpty(s[1..]);
      assert s == [s[0]] + s[1..];
    }
  }

  lemma {:induction false} NormalizeOver(a: string, b: string)
    ensures Normalize(a + b) == Normalize(a) + Normalize(b)
  {
    hide NormalizeChar;
    if a == "" {
      assert a + b == b;
    } else {
      assert (a + b)[1..] == a[1..] + b && (a + b)[0] == a[0];
      NormalizeOver(a[1..], b);
    }
  }

  lemma {:induction false} SpellAtOver(a: string, b: string)
    ensures SpellAt(a + b) == SpellAt(a) + SpellAt(b)
  {
    if a == "" {
      assert a + b == b;
    } else {
      assert (a + b)[1..] == a[1..] + b;
      SpellAtOver(a[1..], b);
    }
  }

  lemma {:induction false} SkippingKeepsWords(text: string)
    ensures WordsOf(SkipSeparators(text)) == WordsOf(text)
    decreases |text|
  {
    if text != "" && IsSeparator(text[0]) {
      assert WordEnd(text) == 0 && text[..0] == "" && text[0..] == text;
      assert Split(text) == [""] + Split(SkipSeparators(text));
      assert ([""] + Split(SkipSeparators(text)))[1..] == Split(SkipSeparators(text));
    }
  }

  function One(part: string): seq<string> {
    var w := Normalize(part);
    if w == "" then [] else [w]
  }

  lemma OneWord(part: string)
    ensures Normalized([part]) == One(part)
  {
    assert Normalized([part][1..]) == [];
  }

  lemma {:induction false} SkipInFront(text: string, rest: string)
    ensures SkipSeparators(text) != "" ==> SkipSeparators(text + rest) == SkipSeparators(text) + rest
    ensures SkipSeparators(text) == "" ==> SkipSeparators(text + rest) == SkipSeparators(rest)
  {
    if text == "" {
      assert text + rest == rest;
    } else if IsSeparator(text[0]) {
      assert (text + rest)[1..] == text[1..] + rest;
      SkipInFront(text[1..], rest);
    }
  }

  /** The words of a text whose first separator stands at `n`. */
  lemma FirstWord(text: string, n: nat)
    requires n < |text| && IsSeparator(text[n]) && forall i :: 0 <= i < n ==> !IsSeparator(text[i])
    ensures WordsOf(text) == One(text[..n]) + WordsOf(text[n + 1..])
  {
    var rest := text[n..];
    assert WordEnd(text) == n;
    assert rest[1..] == text[n + 1..];
    var tail := Split(SkipSeparators(rest));
    assert Split(text) == [text[..n]] + tail;
    assert ([text[..n]] + tail)[1..] == tail;
    SkippingKeepsWords(rest[1..]);
  }

  /** A text without a separator is one word, or none. */
  lemma OnlyWord(text: string)
    requires WordEnd(text) == |text|
    ensures WordsOf(text) == One(text)
  {
    assert Split(text) == [text];
    OneWord(text);
  }

  /** A separator parts the words. */
  lemma {:induction false} WordsOfOver(a: string, c: char, b: string)
    requires IsSeparator(c)
    ensures WordsOf(a + [c] + b) == WordsOf(a) + WordsOf(b)
    decreases |a|
  {
    hide IsSeparator, WordsOf, One;
    var n := WordEnd(a);
    hide WordEnd;
    var all := a + [c] + b;
    assert forall i :: 0 <= i < |a| ==> all[i] == a[i];
    if n == |a| {
      assert all[..n] == a && all[n + 1..] == b;
      FirstWord(all, n);
      OnlyWord(a);
    } else {
      assert all[..n] == a[..n] && all[n + 1..] == a[n + 1..] + [c] + b;
      FirstWord(all, n);
      FirstWord(a, n);
      WordsOfOver(a[n + 1..], c, b);
    }
  }

  predicate HasAlnum(s: string) {
    exists c <- s :: IsAlnum(c)
  }

  lemma HasAlnumOver(a: string, b: string)
    ensures HasAlnum(a + b) <==> HasAlnum(a) || HasAlnum(b)
  {
    hide IsAlnum;
    assert forall c :: c in a + b <==> c in a || c in b;
  }

  lemma {:induction false} NoWordsIff(text: string)
    ensures WordsOf(text) == [] <==> !HasAlnum(text)
    decreases |text|
  {
    hide WordsOf, HasAlnum, IsSpace;
    var n := WordEnd(text);
    if n == |text| {
      OnlyWord(text);
      NormalizeIsEmpty(text);
    } else {
      FirstWord(text, n);
      NormalizeIsEmpty(text[..n]);
      NoWordsIff(text[n + 1..]);
      SeparatorsAreNotWords(text[n]);
      HasAlnumOver(text[..n], [text[n]]);
      HasAlnumOver(text[..n] + [text[n]], text[n + 1..]);
      assert text == text[..n] + [text[n]] + text[n + 1..];
    }
  }

  lemma SeparatorsAreNotWords(c: char)
    requires IsSeparator(c)
    ensures !HasAlnum([c])
  {
  }

  /** Something one can search by: a letter, a digit, or the '@' that stands for "at". */
  predicate Searchable(c: char) {
    IsAlnum(c) || c == '@'
  }

  predicate HasSearchable(q: string) {
    exists c <- q :: Searchable(c)
  }

  lemma {:induction false} SpellAtIsSearchable(q: string)
    ensures HasAlnum(SpellAt(q)) <==> HasSearchable(q)
  {
    if q != "" {
      SpellAtIsSearchable(q[1..]);
      var first := if q[0] == '@' then " at " else [q[0]];
      HasAlnumOver(first, SpellAt(q[1..]));
      assert HasAlnum(first) <==> Searchable(q[0]) by {
        if q[0] == '@' {
          assert first[1] == 'a' && IsAlnum('a');
        } else {
          assert first[0] == q[0];
        }
      }
      hide HasAlnum, Searchable;
      assert q == [q[0]] + q[1..];
    }
  }

  lemma NoWordsWhenBlank(q: string)
    requires Strip(q) == ""
    ensures Words(q) == []
  {
    var l, r := TrimParts(q, IsSpace);
    assert forall c <- q :: IsSpace(c);
    NoWordsIff(SpellAt(q));
    SpellAtIsSearchable(q);
  }

  // --- Tokens and their roles ------------------------------------------------------------------

  type Token = (string, Role)

  function Tag(role: Role, words: seq<string>): (t: seq<Token>)
    ensures |t| == |words|
  {
    seq(|words|, i requires 0 <= i < |words| => (words[i], role))
  }

  function Flat(segments: seq<Segment>): seq<Token> {
    if segments == [] then [] else Tag(segments[0].role, segments[0].tokens) + Flat(segments[1..])
  }

  /** The role in force after some words: that of the last preposition among them. */
  function RoleAfter(role: Role, words: seq<string>): Role {
    if words == [] then role
    else
      var last := words[|words| - 1];
      if IsPreposition(last) then RoleOf(last) else RoleAfter(role, words[..|words| - 1])
  }

  /** The words that are not prepositions, each with the role of the last preposition before it. */
  function Tagged(role: Role, words: seq<string>): seq<Token> {
    if words == [] then []
    else
      var front, last := words[..|words| - 1], words[|words| - 1];
      Tagged(role, front) + (if IsPreposition(last) then [] else [(last, RoleAfter(role, front))])
  }

  lemma {:induction false} TaggedOver(role: Role, a: seq<string>, b: seq<string>)
    ensures Tagged(role, a + b) == Tagged(role, a) + Tagged(RoleAfter(role, a), b)
    ensures RoleAfter(role, a + b) == RoleAfter(RoleAfter(role, a), b)
  {
    hide IsPreposition, RoleOf;
    if b == [] {
      assert a + b == a;
    } else {
      var n := |b| - 1;
      assert (a + b)[..|a + b| - 1] == a + b[..n] && (a + b)[|a + b| - 1] == b[n];
      TaggedOver(role, a, b[..n]);
    }
  }

  lemma {:induction false} TaggedWithoutPrepositions(role: Role, words: seq<string>)
    requires NoPreposition(words)
    ensures Tagged(role, words) == Tag(role, words) && RoleAfter(role, words) == role
  {
    hide IsPreposition, RoleOf;
    if words != [] {
      var n := |words| - 1;
      assert words[n] in words;
      TaggedWithoutPrepositions(role, words[..n]);
      assert Tag(role, words) == Tag(role, words[..n]) + [(words[n], role)];
    }
  }

  predicate NonEmpty(segments: seq<Segment>) {
    forall s <- segments :: s.tokens != [] && s.phrase == Concat(s.tokens)
  }

  lemma FlatIfAny(role: Role, words: seq<string>, rest: seq<Segment>)
    ensures Flat(IfAny(role, words) + rest) == Tag(role, words) + Flat(rest)
    ensures NonEmpty(rest) ==> NonEmpty(IfAny(role, words) + rest)
  {
    hide Concat;
    if words == [] {
      assert IfAny(role, words) + rest == rest;
    } else {
      assert (IfAny(role, words) + rest)[1..] == rest;
    }
  }

  /** Segmenting keeps every word that is not a preposition, in order, under its own role, in segments
      none of which is empty. */
  lemma {:induction false} SegmentedIsTagged(role: Role, words: seq<string>)
    ensures Flat(Segmented(role, words)) == Tagged(role, words)
    ensures NonEmpty(Segmented(role, words))
    decreases |words|
  {
    hide IsPreposition, RoleOf, Concat, Flat, Tag, Tagged, NonEmpty, IfAny, RoleAfter;
    var n := ClauseEnd(words);
    var clause := words[..n];
    assert NoPreposition(clause);
    TaggedWithoutPrepositions(role, clause);
    if n == |words| {
      assert clause == words;
      assert IfAny(role, words) + [] == IfAny(role, words);
      FlatIfAny(role, words, []);
      FlatOfNone();
    } else {
      var rest := words[n + 1..];
      SegmentedIsTagged(RoleOf(words[n]), rest);
      FlatIfAny(role, clause, Segmented(RoleOf(words[n]), rest));
      TaggedClause(role, words, n);
    }
  }

  lemma FlatOfNone()
    ensures Flat([]) == [] && NonEmpty([])
  {
  }

  lemma TaggedClause(role: Role, words: seq<string>, n: nat)
    requires n < |words| && NoPreposition(words[..n]) && IsPreposition(words[n])
    ensures Tagged(role, words) == Tagged(role, words[..n]) + Tagged(RoleOf(words[n]), words[n + 1..])
  {
    var clause, rest := words[..n], words[n + 1..];
    TaggedPreposition(RoleAfter(role, clause), words[n]);
    TaggedOver(role, clause, words[n..]);
    hide *;
    assert words == clause + words[n..] && words[n..] == [words[n]] + rest;
    TaggedOver(RoleAfter(role, clause), [words[n]], rest);
  }

  lemma TaggedPreposition(role: Role, w: string)
    requires IsPreposition(w)
    ensures Tagged(role, [w]) == [] && RoleAfter(role, [w]) == RoleOf(w)
  {
  }

  // --- The roles, by the words that give them --------------------------------------------------

  /** The words that route. */
  ghost predicate Routes(w: string) {
    w in {"at", "in", "from", "near", "around", "outside"}
  }

  /** Of the first `i` words, `p` is the last that routes. */
  ghost predicate LastRouting(words: seq<string>, i: nat, p: nat) {
    p < i <= |words| && Routes(words[p]) && forall q :: p < q < i ==> !Routes(words[q])
  }

  /** The role of a word that stands at `i`: an employer's after "at", a place's after the other words that route,
      and any before all of them. */
  ghost predicate IsRoleAt(words: seq<string>, i: nat, role: Role) {
    && (role == Employer <==> exists p: nat :: LastRouting(words, i, p) && words[p] == "at")
    && (role == Place <==> exists p: nat :: LastRouting(words, i, p) && words[p] in {"in", "from", "near", "around", "outside"})
    && (role == Any <==> !exists p: nat :: LastRouting(words, i, p))
  }

  lemma RoutesIff(w: string)
    ensures IsPreposition(w) <==> Routes(w)
    ensures IsPreposition(w) ==> RoleOf(w) == if w == "at" then Employer else Place
  {
  }

  lemma {:induction false} RoleAfterIs(words: seq<string>, i: nat)
    requires i <= |words|
    ensures IsRoleAt(words, i, RoleAfter(Any, words[..i]))
  {
    if i > 0 {
      var last := words[i - 1];
      assert words[..i][..i - 1] == words[..i - 1] && words[..i][i - 1] == last;
      RoutesIff(last);
      RoleAfterIs(words, i - 1);
      hide IsPreposition, RoleOf;
      if Routes(last) {
        assert LastRouting(words, i, i - 1);
        assert forall p: nat :: LastRouting(words, i, p) ==> p == i - 1;
      } else {
        SameRole(words, i - 1, i, RoleAfter(Any, words[..i]));
      }
    }
  }

  lemma SameRole(words: seq<string>, j: nat, i: nat, role: Role)
    requires i == j + 1 <= |words| && !Routes(words[j]) && IsRoleAt(words, j, role)
    ensures IsRoleAt(words, i, role)
  {
    hide Routes;
    forall p: nat
      ensures LastRouting(words, i, p) ==> LastRouting(words, j, p)
    {
    }
    forall p: nat
      ensures LastRouting(words, j, p) ==> LastRouting(words, i, p)
    {
    }
  }

  /** The positions of the words that do not route. */
  ghost function Kept(words: seq<string>, n: nat): seq<nat>
    requires n <= |words|
  {
    if n == 0 then [] else Kept(words, n - 1) + (if Routes(words[n - 1]) then [] else [n - 1])
  }

  lemma {:induction false} KeptAreTheOthers(words: seq<string>, n: nat)
    requires n <= |words|
    ensures forall i :: i in Kept(words, n) <==> 0 <= i < n && !Routes(words[i])
    ensures forall a, b :: 0 <= a < b < |Kept(words, n)| ==> Kept(words, n)[a] < Kept(words, n)[b]
  {
    hide Routes;
    if n > 0 {
      KeptAreTheOthers(words, n - 1);
      var before := Kept(words, n - 1);
      assert forall a :: 0 <= a < |before| ==> before[a] in before;
    }
  }

  lemma {:induction false} TaggedAre(words: seq<string>, n: nat)
    requires n <= |words|
    ensures var tokens, kept := Tagged(Any, words[..n]), Kept(words, n);
            |tokens| == |kept| && forall k :: 0 <= k < |tokens| ==>
              kept[k] < |words| && tokens[k].0 == words[kept[k]] && IsRoleAt(words, kept[k], tokens[k].1)
  {
    hide IsRoleAt, Routes, IsPreposition, RoleOf, RoleAfter;
    if n > 0 {
      assert words[..n][..n - 1] == words[..n - 1] && words[..n][n - 1] == words[n - 1];
      TaggedAre(words, n - 1);
      RoutesIff(words[n - 1]);
      RoleAfterIs(words, n - 1);
    }
  }

  /** Segmenting keeps exactly the words that do not route, in order, each under the role of the last word before
      it that does. */
  lemma EachWordHasItsRole(words: seq<string>)
    ensures var tokens, kept := Flat(Segmented(Any, words)), Kept(words, |words|);
            && |tokens| == |kept|
            && (forall k :: 0 <= k < |tokens| ==>
                  kept[k] < |words| && tokens[k].0 == words[kept[k]] && IsRoleAt(words, kept[k], tokens[k].1))
            && (forall i :: i in kept <==> 0 <= i < |words| && !Routes(words[i]))
            && (forall a, b :: 0 <= a < b < |kept| ==> kept[a] < kept[b])
  {
    SegmentedIsTagged(Any, words);
    TaggedAre(words, |words|);
    KeptAreTheOthers(words, |words|);
    hide *;
    assert words[..|words|] == words;
  }

  /** The tokens are the first of the words that do not route, each with its role. */
  ghost predicate AreFirstWords(tokens: seq<Token>, words: seq<string>) {
    var kept := Kept(words, |words|);
    && |tokens| <= |kept|
    && forall k :: 0 <= k < |tokens| ==>
         kept[k] < |words| && tokens[k].0 == words[kept[k]] && IsRoleAt(words, kept[k], tokens[k].1)
  }

  lemma FirstWords(tokens: seq<Token>, words: seq<string>)
    requires tokens <= Flat(Segmented(Any, words))
    ensures AreFirstWords(tokens, words)
  {
    EachWordHasItsRole(words);
    hide IsRoleAt, Kept, Segmented, Flat;
  }

  // --- What the caps keep ----------------------------------------------------------------------

  lemma {:induction false} CapsKeepAPrefix(segments: seq<Segment>, room: nat, budget: nat)
    ensures Flat(Capped(segments, room, budget)) == Take(Flat(Take(segments, room)), budget)
  {
    if segments != [] && room > 0 && budget > 0 {
      var first := segments[0];
      var tokens := Take(first.tokens, budget);
      var rest := Capped(segments[1..], room - 1, budget - |tokens|);
      CapsKeepAPrefix(segments[1..], room - 1, budget - |tokens|);
      hide Concat;
      assert ([Seg(first.role, tokens)] + rest)[1..] == rest;
      assert Take(segments, room)[1..] == Take(segments[1..], room - 1);
      assert Tag(first.role, tokens) == Take(Tag(first.role, first.tokens), budget);
      hide Capped, Tag;
      TakeOver(Tag(first.role, first.tokens), Flat(Take(segments[1..], room - 1)), budget);
    } else {
      FlatNothing(segments, room, budget);
    }
  }

  lemma {:induction false} CapsKeepSegments(segments: seq<Segment>, room: nat, budget: nat)
    requires NonEmpty(segments)
    ensures var kept := Capped(segments, room, budget);
            && |kept| <= room && NonEmpty(kept)
            && (kept == [] <==> segments == [] || room == 0 || budget == 0)
  {
    hide Concat;
    if segments != [] && room > 0 && budget > 0 {
      assert segments[0] in segments;
      CapsKeepSegments(segments[1..], room - 1, budget - Min(budget, |segments[0].tokens|));
    }
  }

  lemma FlatNothing(segments: seq<Segment>, room: nat, budget: nat)
    requires segments == [] || room == 0 || budget == 0
    ensures Take(Flat(Take(segments, room)), budget) == []
  {
    if segments == [] || room == 0 {
      assert Take(segments, room) == [];
    }
  }

  lemma TakeOver<T>(a: seq<T>, b: seq<T>, n: nat)
    ensures Take(a + b, n) == Take(a, n) + Take(b, n - |Take(a, n)|)
  {
  }

  // --- The parse as a whole --------------------------------------------------------------------

  /** Some word is neither filler nor a preposition. */
  predicate HasContent(raw: seq<string>) {
    !AllPrepositions(WithoutFiller(raw))
  }

  lemma {:induction false} TaggedIsEmpty(role: Role, words: seq<string>)
    ensures Tagged(role, words) == [] <==> AllPrepositions(words)
  {
    hide IsPreposition, RoleOf;
    if words != [] {
      var n := |words| - 1;
      TaggedIsEmpty(role, words[..n]);
      assert words == words[..n] + [words[n]];
    }
  }

  /** What routing the content gives, before the fallback. */
  lemma RoutedFacts(content: seq<string>)
    ensures var routed := Capped(Segmented(Any, content), MAX_SEGMENTS, MAX_TOKENS);
            && (routed == [] <==> AllPrepositions(content))
            && NonEmpty(routed) && |routed| <= MAX_SEGMENTS
            && Flat(routed) == Take(Flat(Take(Segmented(Any, content), MAX_SEGMENTS)), MAX_TOKENS)
  {
    hide Segmented, Tagged, Capped, AllPrepositions, NonEmpty;
    SegmentedIsTagged(Any, content);
    CapsKeepAPrefix(Segmented(Any, content), MAX_SEGMENTS, MAX_TOKENS);
    CapsKeepSegments(Segmented(Any, content), MAX_SEGMENTS, MAX_TOKENS);
    TaggedIsEmpty(Any, content);
    FlatIsEmpty(Segmented(Any, content));
  }

  lemma FlatIsEmpty(segments: seq<Segment>)
    requires NonEmpty(segments)
    ensures Flat(segments) == [] <==> segments == []
  {
    if segments != [] {
      assert segments[0] in segments;
    }
  }

  lemma {:induction false} WithoutFillerIsSub(raw: seq<string>)
    ensures forall w <- WithoutFiller(raw) :: w in raw && !IsFiller(w)
    ensures forall w <- raw :: IsFiller(w) || w in WithoutFiller(raw)
  {
    if raw != [] {
      hide IsFiller;
      WithoutFillerIsSub(raw[1..]);
      assert raw == [raw[0]] + raw[1..];
    }
  }

  /** Nothing but prepositions: the raw words, up to the cap, are one broad segment. */
  lemma OnlyPrepositionsSearchBroadly(raw: seq<string>)
    requires raw != [] && AllPrepositions(raw)
    ensures ParseWords(raw).segments == [Seg(Any, Take(raw, MAX_TOKENS))]
  {
    WithoutFillerIsSub(raw);
    RoutedFacts(raw);
    hide Segmented, IsPreposition, Concat;
    var broad := [Seg(Any, raw)];
    assert Capped(broad, MAX_SEGMENTS, MAX_TOKENS)
        == [Seg(Any, Take(raw, MAX_TOKENS))] + Capped(broad[1..], 3, MAX_TOKENS - |Take(raw, MAX_TOKENS)|);
  }

  /** A query parses to something exactly when it holds a letter, a digit or an '@'. */
  lemma ParsesIffSearchable(q: string)
    ensures ParseFreeText(Some(q)).segments != [] <==> HasSearchable(q)
    ensures Words(q) == [] <==> !HasSearchable(q)
  {
    NoWordsIff(SpellAt(q));
    SpellAtIsSearchable(q);
    if Strip(q) == "" {
      NoWordsWhenBlank(q);
    } else if Words(q) != [] {
      ParseIsNotEmpty(Words(q));
    }
  }

  lemma ParseIsNotEmpty(raw: seq<string>)
    requires raw != []
    ensures ParseWords(raw).segments != []
  {
    hide Segmented, Capped, IsPreposition, IsFiller;
    RoutedFacts(Content(raw));
    if AllPrepositions(Content(raw)) {
      AllOfThem(raw);
      OnlyPrepositionsSearchBroadly(raw);
    }
  }

  lemma AllOfThem(raw: seq<string>)
    requires AllPrepositions(Content(raw))
    ensures AllPrepositions(raw)
  {
  }

  /** A query with a word that is no preposition keeps a prefix of its non-preposition words that are not
      filler, or of all of them when only filler and prepositions are left; each under the role of the last
      preposition before it: those of the first four segments, up to eight. */
  lemma ParseKeepsAPrefix(q: string)
    requires !AllPrepositions(Words(q))
    ensures var segments, content := ParseFreeText(Some(q)).segments, Content(Words(q));
            && segments != [] && NonEmpty(segments) && |segments| <= MAX_SEGMENTS && |Flat(segments)| <= MAX_TOKENS
            && Flat(segments) == Take(Flat(Take(Segmented(Any, content), MAX_SEGMENTS)), MAX_TOKENS)
            && Flat(segments) <= Flat(Segmented(Any, content))
            && AreFirstWords(Flat(segments), content)
    ensures Content(Words(q)) == if HasContent(Words(q)) then WithoutFiller(Words(q)) else Words(q)
  {
    var content := Content(Words(q));
    ParseOfContent(q);
    ContentIsNotEmpty(Words(q));
    hide *;
    RoutedFacts(content);
    FlatOfTake(Segmented(Any, content), MAX_SEGMENTS);
    FirstWords(Flat(ParseFreeText(Some(q)).segments), content);
  }

  lemma ContentIsNotEmpty(raw: seq<string>)
    requires !AllPrepositions(raw)
    ensures !AllPrepositions(Content(raw))
    ensures Content(raw) == if HasContent(raw) then WithoutFiller(raw) else raw
  {
    hide IsPreposition, WithoutFiller;
  }

  lemma {:induction false} FlatOfTake(segments: seq<Segment>, n: nat)
    ensures Flat(Take(segments, n)) <= Flat(segments)
  {
    if segments != [] && n > 0 {
      assert Take(segments, n)[1..] == Take(segments[1..], n - 1);
      FlatOfTake(segments[1..], n - 1);
    }
  }

  /** With a word that is no preposition, the parse is a function of the content. */
  lemma ParseOfContent(q: string)
    requires !AllPrepositions(Words(q))
    ensures ParseFreeText(Some(q)).segments == Capped(Segmented(Any, Content(Words(q))), MAX_SEGMENTS, MAX_TOKENS)
  {
    ContentIsNotEmpty(Words(q));
    hide Segmented, Capped, IsPreposition, IsFiller, Words, Content;
    RoutedFacts(Content(Words(q)));
    if q == "" || Strip(q) == "" {
      NoWordsWhenBlank(q);
    }
  }

  lemma {:induction false} WithoutFillerOver(a: seq<string>, b: seq<string>)
    ensures WithoutFiller(a + b) == WithoutFiller(a) + WithoutFiller(b)
  {
    hide IsFiller;
    if a == [] {
      assert a + b == b;
    } else {
      WithoutFillerOver(a[1..], b);
      FillerFirst(a, b);
      hide *;
      Regroup(if IsFiller(a[0]) then [] else [a[0]], WithoutFiller(a[1..]), WithoutFiller(b));
    }
  }

  lemma FillerFirst(a: seq<string>, b: seq<string>)
    requires a != []
    ensures WithoutFiller(a) == (if IsFiller(a[0]) then [] else [a[0]]) + WithoutFiller(a[1..])
    ensures WithoutFiller(a + b) == (if IsFiller(a[0]) then [] else [a[0]]) + WithoutFiller(a[1..] + b)
  {
    hide IsFiller;
    assert (a + b)[1..] == a[1..] + b && (a + b)[0] == a[0];
  }

  /** Filler typed between two parts of a query that has content changes nothing. */
  lemma FillerChangesNothing(a: string, c: char, filler: string, d: char, b: string)
    requires IsSeparator(c) && IsSeparator(d)
    requires forall w <- Words(filler) :: IsFiller(w)
    requires HasContent(Words(a + [c] + b))
    ensures ParseFreeText(Some(a + [c] + filler + [d] + b)) == ParseFreeText(Some(a + [c] + b))
  {
    SameContent(a, c, filler, d, b);
    hide *;
    SameContentIsContent(Words(a + [c] + b), Words(a + [c] + filler + [d] + b));
    ParseOfContent(a + [c] + b);
    ParseOfContent(a + [c] + filler + [d] + b);
    SingleFollows(a + [c] + b);
    SingleFollows(a + [c] + filler + [d] + b);
  }

  lemma SameContentIsContent(raw: seq<string>, longer: seq<string>)
    requires HasContent(raw) && WithoutFiller(raw) == WithoutFiller(longer)
    ensures !AllPrepositions(raw) && !AllPrepositions(longer) && Content(raw) == Content(longer)
  {
    WithoutFillerIsSub(raw);
    WithoutFillerIsSub(longer);
    hide IsPreposition, WithoutFiller, IsFiller;
  }

  lemma SameContent(a: string, c: char, filler: string, d: char, b: string)
    requires IsSeparator(c) && IsSeparator(d)
    requires forall w <- Words(filler) :: IsFiller(w)
    ensures WithoutFiller(Words(a + [c] + filler + [d] + b)) == WithoutFiller(Words(a + [c] + b))
  {
    AllFiller(Words(filler));
    hide *;
    WordsOver(a, c, b);
    InTwo(a + [c], filler + [d], filler, [d], b);
    WordsOver(a, c, filler + [d] + b);
    WordsOver(filler, d, b);
    WithoutFillerOver(Words(a), Words(b));
    WithoutFillerOver(Words(a), Words(filler) + Words(b));
    WithoutFillerOver(Words(filler), Words(b));
    assert [] + WithoutFiller(Words(b)) == WithoutFiller(Words(b));
  }

  lemma InTwo(head: string, middle: string, filler: string, d: string, b: string)
    requires middle == filler + d
    ensures head + filler + d + b == head + (middle + b)
  {
  }

  lemma {:induction false} AllFiller(words: seq<string>)
    requires forall w <- words :: IsFiller(w)
    ensures WithoutFiller(words) == []
  {
    if words != [] {
      hide IsFiller;
      assert words[0] in words;
      AllFiller(words[1..]);
    }
  }

  lemma SingleFollows(q: string)
    ensures var p := ParseFreeText(Some(q));
            p.singleToken == (|p.segments| == 1 && p.segments[0].role == Any && |p.segments[0].tokens| == 1)
  {
  }

  lemma WordsOver(a: string, c: char, b: string)
    requires IsSeparator(c)
    ensures Words(a + [c] + b) == Words(a) + Words(b)
  {
    assert a + [c] + b == a + ([c] + b);
    SpellAtOver(a, [c] + b);
    SpellAtOver([c], b);
    assert SpellAt([c]) == [c] by {
      assert [c][1..] == "" && SpellAt("") == "";
    }
    assert SpellAt(a + [c] + b) == SpellAt(a) + [c] + SpellAt(b);
    WordsOfOver(SpellAt(a), c, SpellAt(b));
  }

  // --- What the words are, by characters -----------------------------------------------------------

  /** What a character leaves in a word. */
  function Leaves(c: char): string {
    if 'a' <= c <= 'z' || '0' <= c <= '9' then [c] else if 'A' <= c <= 'Z' then [c - 'A' + 'a'] else ""
  }

  /** Word by word and character by character: whitespace and the four marks part words, an at-sign is the word
      "at", and of everything else the letters, in lower case, and the digits stay. */
  lemma WordsByCharacters(a: string, c: char, b: string)
    ensures Words("") == [] && Normalize("") == ""
    ensures IsSpace(c) || c == ',' || c == ';' || c == '/' || c == '|' ==> Words(a + [c] + b) == Words(a) + Words(b)
    ensures Words(a + "@" + b) == Words(a) + ["at"] + Words(b)
    ensures Normalize(a + [c] + b) == Normalize(a) + Leaves(c) + Normalize(b)
  {
    WordsOfNothing();
    SeparatorIff(c);
    OneLeaves(c);
    hide *;
    if IsSeparator(c) {
      WordsOver(a, c, b);
    }
    AtIsAWord(a, b);
    NormalizeOver(a + [c], b);
    NormalizeOver(a, [c]);
  }

  lemma WordsOfNothing()
    ensures Words("") == [] && Normalize("") == ""
  {
    OnlyWord("");
  }

  lemma SeparatorIff(c: char)
    ensures IsSeparator(c) <==> IsSpace(c) || c == ',' || c == ';' || c == '/' || c == '|'
  {
  }

  lemma OneLeaves(c: char)
    ensures Normalize([c]) == Leaves(c)
  {
    assert [c][1..] == "";
  }

  lemma AtIsAWord(a: string, b: string)
    ensures Words(a + "@" + b) == Words(a) + ["at"] + Words(b)
  {
    SpelledOut();
    hide *;
    SpellAtOver(a + "@", b);
    SpellAtOver(a, "@");
    var x, y := SpellAt(a), SpellAt(b);
    Apart(x, y);
    SeparatorIff(' ');
    WordsOfOver(x, ' ', "at" + [' '] + y);
    WordsOfOver("at", ' ', y);
    WordsIsOf(a);
    WordsIsOf(b);
    WordsIsOf(a + "@" + b);
    Regroup(WordsOf(x), ["at"], WordsOf(y));
  }

  lemma Apart(x: string, y: string)
    ensures x + " at " + y == x + [' '] + ("at" + [' '] + y)
  {
    assert " at " == [' '] + "at" + [' '];
  }

  lemma WordsIsOf(q: string)
    ensures Words(q) == WordsOf(SpellAt(q))
  {
  }

  lemma SpelledOut()
    ensures SpellAt("@") == " at " && WordsOf("at") == ["at"] && IsSpace(' ')
  {
    assert "@"[1..] == "" && SpellAt("") == "";
    hide SpellAt;
    assert WordEnd("at") == 2 by {
      assert !IsSeparator('a') && !IsSeparator('t') && "at"[1..] == "t" && "t"[1..] == "" && WordEnd("") == 0;
      assert WordEnd("t") == 1;
    }
    OnlyWord("at");
    OneLeaves('a');
    OneLeaves('t');
    NormalizeOver("a", "t");
    assert "a" + "t" == "at";
  }

  /** And a text without any of these is one word, or none. */
  lemma OneWordOrNone(text: string)
    requires forall c <- text :: !IsSpace(c) && c != ',' && c != ';' && c != '/' && c != '|' && c != '@'
    ensures Words(text) == if Normalize(text) == "" then [] else [Normalize(text)]
  {
    NothingToSpell(text);
    assert forall i :: 0 <= i < |text| ==> text[i] in text;
    OnlyWord(text);
  }

  lemma {:induction false} NothingToSpell(text: string)
    requires '@' !in text
    ensures SpellAt(text) == text
  {
    if text != "" {
      NothingToSpell(text[1..]);
      assert text == [text[0]] + text[1..];
    }
  }
}
