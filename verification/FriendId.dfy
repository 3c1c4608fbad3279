/** The visible id of a friend record: how it is printed, what is accepted as one, and what a search for
    it finds. */
module FriendId {
  import opened Wrappers
  import opened Text
  import opened SearchTerms
  import opened Numerals

  const PREFIX: string := "FRIEND-"
  const WIDTH: nat := 5
  const MAX_DIGITS: nat := 12

  // --- Printing --------------------------------------------------------------------------------

  function Zeros(k: int): (z: string)
    ensures All(z, IsZero) && |z| == if k < 0 then 0 else k
  {
    if k <= 0 then "" else Zeros(k - 1) + "0"
  }

  function ZeroPadded(n: nat, width: int): string {
    Zeros(width - |Decimal(n)|) + Decimal(n)
  }

  /** `f"{n:05d}"`: the sign counts towards the width. */
  function Padded(n: int): string {
    if n < 0 then "-" + ZeroPadded(-n, WIDTH - 1) else ZeroPadded(n, WIDTH)
  }

  function FriendIdFor(alumniId: Option<int>, isAlumni: Option<bool>): Option<string> {
    if alumniId.None? || isAlumni.None? || isAlumni.value then None else Some(PREFIX + Padded(alumniId.value))
  }

  // --- Parsing ---------------------------------------------------------------------------------

  predicate IsZero(c: char) {
    c == '0'
  }

  /** What may stand between the word and the digits. */
  predicate IsJoint(c: char) {
    IsSpace(c) || c == '-' || c == '_'
  }

  function DigitsEnd(s: string): (n: nat)
    ensures n <= |s| && All(s[..n], IsDigit)
    ensures n < |s| ==> !IsDigit(s[n])
  {
    if s == "" || !IsDigit(s[0]) then 0
    else
      var n := DigitsEnd(s[1..]);
      assert s[..n + 1] == [s[0]] + s[1..][..n];
      n + 1
  }

  function ParseFriendId(value: Option<string>): Option<int> {
    if value.None? then None
    else
      var typed := TrimLeft(value.value, IsSpace);
      if |typed| < 6 || Lower(typed[..6]) != "friend" then None
      else
        var rest := TrimLeft(typed[6..], IsJoint);
        var n := DigitsEnd(rest);
        var digits := TrimLeft(rest[..n], IsZero);
        if n == 0 || |digits| > MAX_DIGITS || !All(rest[n..], IsSpace) || Value(digits) <= 0 then None
        else Some(Value(digits))
  }

  // --- The pattern -----------------------------------------------------------------------------

  /** The pieces the pattern `^\s*friend[\s\-_]*0*(\d{1,12})\s*$` cuts a text into. */
  datatype Pieces = Pieces(before: string, word: string, joint: string, zeros: string, digits: string, after: string)

  function TextOf(p: Pieces): string {
    p.before + p.word + p.joint + p.zeros + p.digits + p.after
  }

  predicate Fits(p: Pieces) {
    && All(p.before, IsSpace)
    && Lower(p.word) == "friend"
    && All(p.joint, IsJoint)
    && All(p.zeros, IsZero)
    && 1 <= |p.digits| <= MAX_DIGITS && All(p.digits, IsDigit)
    && All(p.after, IsSpace)
  }

  lemma {:induction false} ValueSkipsZeros(zeros: string, digits: string)
    requires All(zeros, IsZero)
    ensures Value(zeros + digits) == Value(digits)
  {
    if digits == "" {
      assert zeros + digits == zeros;
      ValueOfZeros(zeros);
    } else {
      var n := |digits| - 1;
      var all := zeros + digits;
      assert all[..|all| - 1] == zeros + digits[..n] && all[|all| - 1] == digits[n];
      ValueSkipsZeros(zeros, digits[..n]);
    }
  }

  lemma {:induction false} ValueOfZeros(zeros: string)
    requires All(zeros, IsZero)
    ensures Value(zeros) == 0
  {
    if zeros != "" {
      var n := |zeros| - 1;
      assert zeros[n] in zeros;
      ValueOfZeros(zeros[..n]);
    }
  }

  lemma DigitsEndIs(digits: string, after: string)
    requires All(digits, IsDigit) && (after != "" ==> !IsDigit(after[0]))
    ensures DigitsEnd(digits + after) == |digits|
  {
    var s := digits + after;
    var n := DigitsEnd(s);
    assert forall i :: 0 <= i < |digits| ==> s[i] == digits[i] && digits[i] in digits;
    assert forall i :: 0 <= i < n ==> s[i] == s[..n][i] && s[..n][i] in s[..n];
    if after != "" {
      assert s[|digits|] == after[0];
    }
  }

  /** Whatever is cut that way names the number its digits spell. */
  lemma PiecesParse(p: Pieces)
    requires Fits(p)
    ensures ParseFriendId(Some(TextOf(p))) == if Value(p.digits) > 0 then Some(Value(p.digits)) else None
  {
    var number := p.zeros + p.digits;
    var tail := p.joint + (number + p.after);
    assert TextOf(p) == p.before + (p.word + tail);
    assert LowerChar(p.word[0]) == 'f';
    TrimLeftSkips(p.before, p.word + tail, IsSpace);
    assert TrimLeft(TextOf(p), IsSpace) == p.word + tail;
    assert (p.word + tail)[..6] == p.word && (p.word + tail)[6..] == tail;
    NumberPieces(p);
    TrimLeftSkips(p.joint, number + p.after, IsJoint);
    assert TrimLeft(tail, IsJoint) == number + p.after;
    assert (number + p.after)[..|number|] == number && (number + p.after)[|number|..] == p.after;
  }

  lemma NumberPieces(p: Pieces)
    requires Fits(p)
    ensures var number := p.zeros + p.digits;
            && TrimLeft(number + p.after, IsJoint) == number + p.after
            && DigitsEnd(number + p.after) == |number| > 0
            && |TrimLeft(number, IsZero)| <= MAX_DIGITS
            && Value(TrimLeft(number, IsZero)) == Value(p.digits)
  {
    Significant(p.zeros, p.digits);
    var number := p.zeros + p.digits;
    NumberIsDigits(p.zeros, p.digits);
    assert p.after != "" ==> p.after[0] in p.after;
    hide Value, Lower;
    DigitsEndIs(number, p.after);
    assert (number + p.after)[0] == number[0] && number[0] in number;
  }

  lemma NumberIsDigits(zeros: string, digits: string)
    requires All(zeros, IsZero) && All(digits, IsDigit)
    ensures All(zeros + digits, IsDigit)
  {
  }

  lemma Significant(zeros: string, digits: string)
    requires All(zeros, IsZero)
    ensures |TrimLeft(zeros + digits, IsZero)| <= |digits|
    ensures Value(TrimLeft(zeros + digits, IsZero)) == Value(digits)
  {
    TrimLeftSkips(zeros, digits, IsZero);
    var more := TrimLeftParts(digits, IsZero);
    ValueSkipsZeros(more, TrimLeft(digits, IsZero));
  }

  /** And whatever parses can be cut that way. */
  lemma PiecesOf(v: string) returns (p: Pieces)
    requires ParseFriendId(Some(v)).Some?
    ensures Fits(p) && TextOf(p) == v && Some(Value(p.digits)) == ParseFriendId(Some(v))
    ensures p.digits[0] != '0'
  {
    var before := TrimLeftParts(v, IsSpace);
    var typed := TrimLeft(v, IsSpace);
    var joint := TrimLeftParts(typed[6..], IsJoint);
    var rest := TrimLeft(typed[6..], IsJoint);
    var n := DigitsEnd(rest);
    var zeros := TrimLeftParts(rest[..n], IsZero);
    var digits := TrimLeft(rest[..n], IsZero);
    p := Pieces(before, typed[..6], joint, zeros, digits, rest[n..]);
    assert digits != "" by {
      assert Value("") == 0;
    }
    hide Value, Lower, TrimLeft, DigitsEnd, IsSpace, IsJoint;
    assert All(digits, IsDigit) by {
      assert rest[..n] == zeros + digits;
    }
    CutIsWhole(v, before, typed, joint, rest, n, zeros, digits);
  }

  lemma CutIsWhole(v: string, before: string, typed: string, joint: string, rest: string, n: nat, zeros: string, digits: string)
    requires v == before + typed && |typed| >= 6 && typed[6..] == joint + rest && n <= |rest| && rest[..n] == zeros + digits
    ensures TextOf(Pieces(before, typed[..6], joint, zeros, digits, rest[n..])) == v
  {
    var word, after := typed[..6], rest[n..];
    assert typed == word + (joint + rest) && rest == (zeros + digits) + after;
    Regroup(before, word, joint + rest);
    Regroup(before + word, joint, rest);
    Regroup(before + word + joint, zeros + digits, after);
    Regroup(before + word + joint, zeros, digits);
  }

  /** A text names record `n` exactly when the pattern matches it with digits that spell `n`, and `n` is
      positive. */
  lemma ParsesIffItFits(v: string, n: int)
    ensures ParseFriendId(Some(v)) == Some(n) <==> n > 0 && exists p: Pieces :: Fits(p) && TextOf(p) == v && Value(p.digits) == n
  {
    if ParseFriendId(Some(v)) == Some(n) {
      var p := PiecesOf(v);
    }
    if p: Pieces :| n > 0 && Fits(p) && TextOf(p) == v && Value(p.digits) == n {
      PiecesParse(p);
    }
  }

  // --- Print, then parse -----------------------------------------------------------------------

  function PrintedPieces(n: nat): Pieces {
    Pieces("", "FRIEND", "-", Zeros(WIDTH - |Decimal(n)|), Decimal(n), "")
  }

  lemma DecimalLength(n: nat)
    requires n > 0
    ensures Decimal(n)[0] != '0'
    ensures |Decimal(n)| <= MAX_DIGITS <==> n < Power10(MAX_DIGITS)
  {
    DecimalLeads(n);
    ValueBound(Decimal(n));
    if |Decimal(n)| <= MAX_DIGITS {
      PowerMonotone(|Decimal(n)|, MAX_DIGITS);
    } else {
      PowerMonotone(MAX_DIGITS, |Decimal(n)| - 1);
    }
  }

  lemma PrintedFits(n: nat)
    requires 0 < n < Power10(MAX_DIGITS)
    ensures Fits(PrintedPieces(n)) && Some(TextOf(PrintedPieces(n))) == FriendIdFor(Some(n), Some(false))
  {
    DecimalLength(n);
    var zeros, digits := Zeros(WIDTH - |Decimal(n)|), Decimal(n);
    PrefixPieces();
    hide Value, Lower, Power10, IsSpace, Zeros, Decimal;
    PrintedText(zeros, digits);
  }

  lemma PrefixPieces()
    ensures Lower("FRIEND") == "friend" && All("-", IsJoint) && All("", IsSpace)
  {
  }

  lemma PrintedText(zeros: string, digits: string)
    ensures "" + "FRIEND" + "-" + zeros + digits + "" == PREFIX + (zeros + digits)
  {
    assert "" + "FRIEND" + "-" == PREFIX;
    Regroup(PREFIX, zeros, digits);
  }

  /** A printed id parses back to its record exactly for the keys from 1 up to twelve digits. */
  lemma RoundTripIff(id: int)
    ensures ParseFriendId(FriendIdFor(Some(id), Some(false))) == Some(id) <==> 1 <= id < Power10(MAX_DIGITS)
  {
    var v := FriendIdFor(Some(id), Some(false)).value;
    if 1 <= id < Power10(MAX_DIGITS) {
      PrintedFits(id);
      PiecesParse(PrintedPieces(id));
    } else if ParseFriendId(Some(v)) == Some(id) {
      var p := PiecesOf(v);
      ValueBound(p.digits);
      PowerMonotone(|p.digits|, MAX_DIGITS);
      assert false;
    }
  }

  /** Two friends never show the same id. */
  lemma PrintedIdsAreDistinct(a: int, b: int)
    requires a != b
    ensures FriendIdFor(Some(a), Some(false)) != FriendIdFor(Some(b), Some(false))
  {
    PaddedTells(a);
    PaddedTells(b);
    assert (PREFIX + Padded(a))[|PREFIX|..] == Padded(a) && (PREFIX + Padded(b))[|PREFIX|..] == Padded(b);
  }

  lemma PaddedTells(n: int)
    ensures Padded(n) != ""
    ensures (Padded(n)[0] == '-') == (n < 0)
    ensures n == if n < 0 then -Value(Padded(n)[1..]) else Value(Padded(n))
  {
    if n < 0 {
      ZeroPaddedTells(-n, WIDTH - 1);
      assert ("-" + ZeroPadded(-n, WIDTH - 1))[1..] == ZeroPadded(-n, WIDTH - 1);
    } else {
      ZeroPaddedTells(n, WIDTH);
    }
  }

  lemma ZeroPaddedTells(n: nat, width: int)
    ensures ZeroPadded(n, width) != "" && ZeroPadded(n, width)[0] != '-' && Value(ZeroPadded(n, width)) == n
  {
    var zeros, digits := Zeros(width - |Decimal(n)|), Decimal(n);
    ValueSkipsZeros(zeros, digits);
    NumberIsDigits(zeros, digits);
    hide Value, Zeros, Decimal;
    var s := zeros + digits;
    assert s[0] in s;
  }

  // --- What a search finds ---------------------------------------------------------------------

  datatype Person = Person(alumniId: int, isAlumni: Option<bool>)

  /** `friend_id_predicate`. */
  predicate NamesFriend(pk: int, p: Person) {
    p.alumniId == pk && p.isAlumni == Some(false)
  }

  /** The record a parsed query names by its friend id, if it does. */
  function FriendLeg(parsed: Parsed): Option<int> {
    if parsed.singleToken && parsed.segments != [] && parsed.segments[0].tokens != []
    then ParseFriendId(Some(parsed.segments[0].tokens[0]))
    else None
  }

  /** `q_conditions`: every segment must match, the first of them also by friend id. */
  predicate QueryMatches(parsed: Parsed, segmentMatches: (Segment, Person) -> bool, p: Person) {
    forall i :: 0 <= i < |parsed.segments| ==>
      || segmentMatches(parsed.segments[i], p)
      || (i == 0 && FriendLeg(parsed).Some? && NamesFriend(FriendLeg(parsed).value, p))
  }

  /** The Net ID box: a friend id names its record, anything else is matched against Net IDs. */
  predicate NetIdBoxMatches(typed: Option<string>, netIdLike: (string, Person) -> bool, p: Person) {
    if ParseFriendId(typed).Some? then NamesFriend(ParseFriendId(typed).value, p)
    else typed.Some? && Strip(typed.value) != "" ==> netIdLike(typed.value, p)
  }

  predicate NoSpaceInside(v: string) {
    forall c <- Strip(v) :: !IsSpace(c)
  }

  lemma {:induction false} SeparatorsInFront(spaces: string, text: string)
    requires All(spaces, IsSpace)
    ensures WordsOf(spaces + text) == WordsOf(text)
  {
    if spaces == "" {
      assert spaces + text == text;
    } else {
      assert spaces[0] in spaces;
      assert spaces + text == "" + [spaces[0]] + (spaces[1..] + text);
      WordsOfOver("", spaces[0], spaces[1..] + text);
      OnlyWord("");
      SeparatorsInFront(spaces[1..], text);
    }
  }

  lemma {:induction false} SeparatorsBehind(text: string, spaces: string)
    requires All(spaces, IsSpace)
    ensures WordsOf(text + spaces) == WordsOf(text)
  {
    if spaces == "" {
      assert text + spaces == text;
    } else {
      var n := |spaces| - 1;
      assert spaces[n] in spaces;
      assert text + spaces == (text + spaces[..n]) + [spaces[n]] + "";
      WordsOfOver(text + spaces[..n], spaces[n], "");
      OnlyWord("");
      SeparatorsBehind(text, spaces[..n]);
    }
  }

  lemma {:induction false} NoAtSign(text: string)
    requires '@' !in text
    ensures SpellAt(text) == text
  {
    if text != "" {
      NoAtSign(text[1..]);
    }
  }

  lemma {:induction false} NormalizeDrops(joint: string)
    requires All(joint, IsJoint)
    ensures Normalize(joint) == ""
  {
    if joint != "" {
      assert joint[0] in joint;
      NormalizeDrops(joint[1..]);
    }
  }

  lemma {:induction false} NormalizeKeeps(digits: string)
    requires All(digits, IsDigit)
    ensures Normalize(digits) == digits
  {
    if digits != "" {
      assert digits[0] in digits;
      NormalizeKeeps(digits[1..]);
    }
  }

  lemma {:induction false} NormalizeLowers(word: string)
    requires forall c <- word :: IsAlnum(c)
    ensures Normalize(word) == Lower(word)
  {
    if word != "" {
      NormalizeLowers(word[1..]);
      assert Lower(word) == [LowerChar(word[0])] + Lower(word[1..]);
    }
  }

  lemma NoSeparators(text: string)
    requires forall c <- text :: !IsSeparator(c)
    ensures WordsOf(text) == One(text)
  {
    assert forall i :: 0 <= i < |text| ==> text[i] in text;
    OnlyWord(text);
  }

  /** Joint characters before the digits, spaces or not, leave the digits one word. */
  lemma {:induction false} JointThenDigits(joint: string, rest: string, number: string)
    requires All(joint, IsJoint) && All(number, IsDigit) && number != ""
    requires Normalize(rest) == number && forall c <- rest :: !IsSeparator(c)
    ensures WordsOf(joint + rest) == [number]
    decreases |joint|
  {
    if joint == "" {
      assert joint + rest == rest;
      NoSeparators(rest);
    } else {
      var n := |joint| - 1;
      var c := joint[n];
      assert c in joint;
      if IsSpace(c) {
        assert joint + rest == joint[..n] + [c] + rest;
        WordsOfOver(joint[..n], c, rest);
        NoSeparators(rest);
        NoWordsInJoint(joint[..n]);
      } else {
        assert joint + rest == joint[..n] + ([c] + rest);
        NormalizeDrops([c]);
        NormalizeOver([c], rest);
        JointThenDigits(joint[..n], [c] + rest, number);
      }
    }
  }

  lemma NoWordsInJoint(joint: string)
    requires All(joint, IsJoint)
    ensures WordsOf(joint) == []
  {
    NoWordsIff(joint);
  }

  /** What a typed friend id splits into: one word, or the word and the number. */
  lemma WordsOfPieces(p: Pieces)
    requires Fits(p)
    ensures Words(TextOf(p)) ==
            if exists c <- p.joint :: IsSpace(c) then ["friend", p.zeros + p.digits]
            else ["friend" + (p.zeros + p.digits)]
  {
    var number := p.zeros + p.digits;
    var core := p.word + (p.joint + number);
    assert TextOf(p) == (p.before + core) + p.after;
    NoAtInPieces(p);
    NoAtSign(TextOf(p));
    SeparatorsBehind(p.before + core, p.after);
    SeparatorsInFront(p.before, core);
    CoreWords(p.word, p.joint, p.zeros, p.digits);
  }

  lemma NoAtInPieces(p: Pieces)
    requires Fits(p)
    ensures '@' !in TextOf(p)
  {
    WordIsLetters(p.word);
  }

  lemma WordIsLetters(word: string)
    requires Lower(word) == "friend"
    ensures forall c <- word :: IsAlnum(c) && !IsSeparator(c) && c != '@'
  {
    assert forall c <- "friend" :: 'a' <= c <= 'z';
    forall c | c in word
      ensures IsAlnum(c) && !IsSeparator(c) && c != '@'
    {
      var i :| 0 <= i < |word| && word[i] == c;
      assert Lower(word)[i] in "friend";
    }
  }

  lemma CoreWords(word: string, joint: string, zeros: string, digits: string)
    requires Lower(word) == "friend" && All(joint, IsJoint) && All(zeros, IsZero) && All(digits, IsDigit) && digits != ""
    ensures WordsOf(word + (joint + (zeros + digits))) ==
            if exists c <- joint :: IsSpace(c) then ["friend", zeros + digits] else ["friend" + (zeros + digits)]
  {
    var number := zeros + digits;
    NumberIsDigits(zeros, digits);
    if exists c <- joint :: IsSpace(c) {
      TwoCoreWords(word, joint, number);
    } else {
      OneCoreWord(word, joint, number);
    }
  }

  lemma OneCoreWord(word: string, joint: string, number: string)
    requires Lower(word) == "friend" && All(joint, IsJoint) && All(number, IsDigit) && number != ""
    requires forall c <- joint :: !IsSpace(c)
    ensures WordsOf(word + (joint + number)) == ["friend" + number]
  {
    NormalizeKeeps(number);
    WordIsLetters(word);
    NormalizeLowers(word);
    NormalizeDrops(joint);
    assert forall c <- word + (joint + number) :: !IsSeparator(c);
    NoSeparators(word + (joint + number));
    hide Lower, Normalize, IsSeparator;
    NormalizeOver(joint, number);
    NormalizeOver(word, joint + number);
    assert "" + number == number;
    assert One(word + (joint + number)) == ["friend" + number];
  }

  lemma TwoCoreWords(word: string, joint: string, number: string)
    requires Lower(word) == "friend" && All(joint, IsJoint) && All(number, IsDigit) && number != ""
    requires exists c <- joint :: IsSpace(c)
    ensures WordsOf(word + (joint + number)) == ["friend", number]
  {
    WordIsLetters(word);
    var n := FirstSpace(joint);
    var front, back := joint[..n], joint[n + 1..];
    FriendWord(word, front);
    NormalizeKeeps(number);
    JointThenDigits(back, number, number);
    hide Lower, Normalize, WordsOf, IsJoint;
    assert joint == front + [joint[n]] + back;
    Regrouped(word, front, [joint[n]], back, number);
    WordsOfOver(word + front, joint[n], back + number);
  }

  lemma Regrouped(word: string, front: string, c: string, back: string, number: string)
    ensures word + ((front + c + back) + number) == (word + front) + c + (back + number)
  {
  }

  lemma FriendWord(word: string, joint: string)
    requires Lower(word) == "friend" && All(joint, IsJoint) && forall c <- joint :: !IsSeparator(c)
    ensures WordsOf(word + joint) == ["friend"]
  {
    WordIsLetters(word);
    NormalizeLowers(word);
    NormalizeDrops(joint);
    NormalizeOver(word, joint);
    NoSeparators(word + joint);
    assert Lower(word) + "" == "friend";
  }

  lemma FirstSpace(joint: string) returns (n: nat)
    requires All(joint, IsJoint) && exists c <- joint :: IsSpace(c)
    ensures n < |joint| && IsSpace(joint[n]) && All(joint[..n], IsJoint)
    ensures All(joint[n + 1..], IsJoint) && forall c <- joint[..n] :: !IsSeparator(c)
  {
    n := 0;
    while !IsSpace(joint[n])
      invariant n < |joint| && exists i :: n <= i < |joint| && IsSpace(joint[i])
      invariant forall c <- joint[..n] :: !IsSpace(c)
      decreases |joint| - n
    {
      assert joint[..n + 1] == joint[..n] + [joint[n]];
      n := n + 1;
    }
  }

  /** No filler word and no preposition ends in a digit, and "friend" is neither. */
  lemma NotStopped(w: string)
    requires w == "friend" || (w != "" && IsDigit(w[|w| - 1]))
    ensures !IsFiller(w) && !IsPreposition(w)
  {
    if IsFiller(w) {
      FillerIsWords(w);
    }
  }

  lemma FillerIsWords(w: string)
    requires IsFiller(w)
    ensures w != "friend" && w != "" && !IsDigit(w[|w| - 1])
  {
  }

  /** Words that are neither filler nor prepositions are one broad segment. */
  lemma PlainWords(raw: seq<string>)
    requires 1 <= |raw| <= MAX_TOKENS && forall w <- raw :: !IsFiller(w) && !IsPreposition(w)
    ensures ParseWords(raw) == Parsed([Seg(Any, raw)], |raw| == 1)
  {
    hide IsFiller, IsPreposition, Concat;
    NothingStripped(raw);
    assert raw[0] in raw;
    assert NoPreposition(raw);
    assert Segmented(Any, raw) == [Seg(Any, raw)] by {
      var n := ClauseEnd(raw);
      assert forall i :: 0 <= i < |raw| ==> raw[i] in raw;
    }
    hide Segmented;
    var one := [Seg(Any, raw)];
    assert one[0].tokens[..Min(MAX_TOKENS, |raw|)] == raw;
    assert Capped(one, MAX_SEGMENTS, MAX_TOKENS) == [Seg(Any, raw)] + Capped(one[1..], 3, MAX_TOKENS - |raw|);
  }

  lemma {:induction false} NothingStripped(raw: seq<string>)
    requires forall w <- raw :: !IsFiller(w)
    ensures WithoutFiller(raw) == raw
  {
    if raw != [] {
      hide IsFiller;
      assert raw[0] in raw;
      NothingStripped(raw[1..]);
    }
  }

  /** In the search box a friend id that parses is looked up exactly when it is typed without a space
      inside; with one, the search sees two words and no id. */
  lemma SearchLooksItUpIff(v: string)
    requires ParseFriendId(Some(v)).Some?
    ensures FriendLeg(ParseFreeText(Some(v))) == if NoSpaceInside(v) then ParseFriendId(Some(v)) else None
  {
    var p := PiecesOf(v);
    WordsOfPieces(p);
    StripOfPieces(p);
    var number := p.zeros + p.digits;
    hide Words, ParseFriendId, Normalize, Lower, Value, Strip;
    NumberEnds(p);
    NotBlank(v);
    if exists c <- p.joint :: IsSpace(c) {
      NotStopped("friend");
      NotStopped(number);
      PlainWords(["friend", number]);
    } else {
      NotStopped("friend" + number);
      PlainWords(["friend" + number]);
      WordParses(p);
    }
  }

  lemma NotBlank(v: string)
    requires Words(v) != []
    ensures v != "" && Strip(v) != "" && ParseFreeText(Some(v)) == ParseWords(Words(v))
  {
    if Strip(v) == "" {
      NoWordsWhenBlank(v);
    }
    assert v == "" ==> Strip(v) == "";
  }

  lemma NumberEnds(p: Pieces)
    requires Fits(p)
    ensures var number := p.zeros + p.digits; IsDigit(number[|number| - 1]) && IsDigit(("friend" + number)[|number| + 5])
  {
    var number := p.zeros + p.digits;
    assert number[|number| - 1] == p.digits[|p.digits| - 1] && p.digits[|p.digits| - 1] in p.digits;
  }

  lemma WordParses(p: Pieces)
    requires Fits(p) && Value(p.digits) > 0
    ensures ParseFriendId(Some("friend" + (p.zeros + p.digits))) == Some(Value(p.digits))
  {
    var word := Pieces("", "friend", "", p.zeros, p.digits, "");
    assert Lower("friend") == "friend";
    assert TextOf(word) == "friend" + (p.zeros + p.digits);
    PiecesParse(word);
  }

  lemma StripOfPieces(p: Pieces)
    requires Fits(p)
    ensures NoSpaceInside(TextOf(p)) <==> !exists c <- p.joint :: IsSpace(c)
  {
    var core := p.word + p.joint + p.zeros + p.digits;
    assert TextOf(p) == p.before + core + p.after;
    WordIsLetters(p.word);
    assert core[0] == p.word[0] && p.word[0] in p.word;
    assert core[|core| - 1] == p.digits[|p.digits| - 1] && p.digits[|p.digits| - 1] in p.digits;
    TrimIs(p.before, core, p.after, IsSpace);
    assert forall c :: c in core <==> c in p.word || c in p.joint || c in p.zeros || c in p.digits;
  }

  /** Typing a displayed friend id finds that friend, and the id adds nobody else: not an alumnus who
      has the same key, and no other friend. The Net ID box finds the same record. */
  lemma DisplayedIdFindsTheFriend(
      people: set<Person>, friend: Person, p: Person,
      segmentMatches: (Segment, Person) -> bool, netIdLike: (string, Person) -> bool)
    requires forall a <- people, b <- people :: a.alumniId == b.alumniId ==> a == b
    requires friend in people && friend.isAlumni == Some(false) && 1 <= friend.alumniId < Power10(MAX_DIGITS)
    requires p in people
    ensures var shown := FriendIdFor(Some(friend.alumniId), friend.isAlumni);
            var parsed := ParseFreeText(shown);
            && parsed.singleToken && |parsed.segments| == 1
            && (QueryMatches(parsed, segmentMatches, p) <==> p == friend || segmentMatches(parsed.segments[0], p))
            && (NetIdBoxMatches(shown, netIdLike, p) <==> p == friend)
  {
    var id := friend.alumniId;
    var shown := FriendIdFor(Some(id), Some(false));
    PrintedFits(id);
    var pieces := PrintedPieces(id);
    RoundTripIff(id);
    StripOfPieces(pieces);
    SearchLooksItUpIff(shown.value);
    SingleFollows(shown.value);
    assert FriendLeg(ParseFreeText(shown)) == Some(id);
  }

  /** An id adds the one friend with that key, and nobody who is an alumnus; the Net ID box shows just that friend, and
      for any other text that is not blank whoever has it in the Net ID. */
  lemma OnlyAFriendIsNamed(
      q: Option<string>, p: Person, segmentMatches: (Segment, Person) -> bool, netIdLike: (string, Person) -> bool)
    ensures var parsed := ParseFreeText(q); var id := FriendLeg(parsed);
            QueryMatches(parsed, segmentMatches, p) <==>
            forall i :: 0 <= i < |parsed.segments| ==>
              segmentMatches(parsed.segments[i], p) || (i == 0 && id == Some(p.alumniId) && p.isAlumni.Some? && !p.isAlumni.value)
    ensures ParseFriendId(q).Some? ==>
              (NetIdBoxMatches(q, netIdLike, p) <==> ParseFriendId(q) == Some(p.alumniId) && p.isAlumni.Some? && !p.isAlumni.value)
    ensures ParseFriendId(q).None? ==> (NetIdBoxMatches(q, netIdLike, p) <==> q.None? || Strip(q.value) == "" || netIdLike(q.value, p))
  {
    hide ParseFreeText, ParseFriendId, FriendLeg, Strip;
  }

  /** An id typed with a space names its record to the parser and to the Net ID box, and not to the search. */
  lemma ASpacedIdIsNotLookedUp()
    ensures ParseFriendId(Some("Friend 42")) == Some(42)
    ensures FriendLeg(ParseFreeText(Some("Friend 42"))) == None
  {
    var p := SpacedPieces();
    hide *;
    PiecesParse(p);
    StripOfPieces(p);
    SearchLooksItUpIff("Friend 42");
  }

  lemma SpacedPieces() returns (p: Pieces)
    ensures Fits(p) && TextOf(p) == "Friend 42" && Value(p.digits) == 42
    ensures exists c <- p.joint :: IsSpace(c)
  {
    p := Pieces("", "Friend", " ", "", "42", "");
    assert Lower("Friend") == "friend";
    assert Value("42") == 42 by {
      assert "42"[..1] == "4" && "4"[..0] == "";
    }
    hide Value, Lower;
    assert p.joint[0] == ' ' && ' ' in p.joint && IsSpace(' ');
    assert TextOf(p) == "Friend 42" by {
      assert "" + "Friend" + " " + "" + "42" + "" == "Friend 42";
    }
  }
}
