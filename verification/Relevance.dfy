/** The tiered relevance score, over an abstract trigram similarity. */
module Relevance {
  import SearchTerms

  const EXACT_SCORE: real := 100.0
  const PREFIX_SCORE: real := 80.0
  const CONTAINS_SCORE: real := 60.0
  const FUZZY_CEILING: real := 50.0
  const ALIAS_PENALTY: real := 0.85
  const MIN_FUZZY_LENGTH: nat := 4

  /** Where a cell is: on the person's own row, their current employment, or their history. */
  datatype Field = Name | Current(column: Column) | History

  datatype Column = EmployerName | Title | Location

  /** A cell that is not NULL, in normalized form. */
  datatype Cell = Cell(field: Field, text: string)

  /** A term and its synonyms, the term itself first. */
  type Spellings = s: seq<string> | s != [] witness [""]

  /** The greater of the two trigram similarities of a cell and a term. */
  type Similarity = (string, string) -> real

  ghost predicate IsSimilarity(sim: Similarity) {
    forall text, term :: 0.0 <= sim(text, term) <= 1.0
  }

  function Weight(f: Field): real {
    match f
    case Name => 1.0
    case Current(_) => 0.9
    case History => 0.7
  }

  predicate Contains(text: string, term: string) {
    term <= text || (text != "" && Contains(text[1..], term))
  }

  datatype Tier = Exact | Prefix | Inside | Approximate

  function TierOf(text: string, term: string): Tier {
    if text == term then Exact
    else if term <= text then Prefix
    else if Contains(text, term) then Inside
    else Approximate
  }

  function TierScore(tier: Tier): real
    requires !tier.Approximate?
  {
    match tier
    case Exact => EXACT_SCORE
    case Prefix => PREFIX_SCORE
    case Inside => CONTAINS_SCORE
  }

  /** `_score_one`. */
  function ScoreOne(text: string, term: string, weight: real, sim: Similarity): real {
    var tier := TierOf(text, term);
    (if !tier.Approximate? then TierScore(tier)
     else if |term| >= MIN_FUZZY_LENGTH then FUZZY_CEILING * sim(text, term)
     else 0.0) * weight
  }

  function Max(a: real, b: real): real {
    if a < b then b else a
  }

  function WeightOf(field: Field, alias: bool): real {
    if alias then Weight(field) * ALIAS_PENALTY else Weight(field)
  }

  /** `_score`: the literal term at full weight, a synonym at the alias penalty. */
  function Score(cell: Cell, spellings: seq<string>, alias: bool, sim: Similarity): real {
    if spellings == [] then 0.0
    else Max(ScoreOne(cell.text, spellings[0], WeightOf(cell.field, alias), sim), Score(cell, spellings[1..], true, sim))
  }

  function CellScore(cell: Cell, terms: seq<Spellings>, sim: Similarity): real {
    if terms == [] then 0.0 else Max(Score(cell, terms[0], false, sim), CellScore(cell, terms[1..], sim))
  }

  /** `_segment_score`: the best of a row's cells, for the best of the terms. */
  function RowScore(cells: seq<Cell>, terms: seq<Spellings>, sim: Similarity): real {
    if cells == [] then 0.0 else Max(CellScore(cells[0], terms, sim), RowScore(cells[1..], terms, sim))
  }

  // --- Precise hits against guesses ------------------------------------------------------------

  /** Hits whose score stays above everything an approximate match can reach: all but a hit inside a cell of the
      history, or inside a current cell by synonym, and a synonym's prefix hit in the history. */
  predicate OutranksGuesses(tier: Tier, field: Field, alias: bool) {
    match tier
    case Exact => true
    case Prefix => !(field.History? && alias)
    case Inside => field.Name? || (field.Current? && !alias)
    case Approximate => false
  }

  /** What an approximate match scores. */
  function GuessScore(f: Field, s: real): real {
    FUZZY_CEILING * s * Weight(f)
  }

  /** A precise hit outscores every approximate one, whatever the similarity and the field, exactly when it
      is one of those. */
  lemma OutranksIff(tier: Tier, field: Field, alias: bool)
    requires !tier.Approximate?
    ensures OutranksGuesses(tier, field, alias) <==>
            forall f, s :: 0.0 <= s <= 1.0 ==> GuessScore(f, s) < TierScore(tier) * WeightOf(field, alias)
  {
    PreciseScores(tier, field, alias);
    var least := TierScore(tier) * WeightOf(field, alias);
    hide OutranksGuesses, TierScore, WeightOf;
    forall f, s | 0.0 <= s <= 1.0
      ensures GuessScore(f, s) <= FUZZY_CEILING
    {
      match f
      case Name =>
      case Current(_) =>
      case History =>
    }
    assert GuessScore(Name, 1.0) == FUZZY_CEILING;
    hide GuessScore;
    if forall f, s :: 0.0 <= s <= 1.0 ==> GuessScore(f, s) < least {
      assert GuessScore(Name, 1.0) < least;
    }
  }

  lemma PreciseScores(tier: Tier, field: Field, alias: bool)
    requires !tier.Approximate?
    ensures OutranksGuesses(tier, field, alias) <==> TierScore(tier) * WeightOf(field, alias) > FUZZY_CEILING
  {
  }

  lemma GuessOne(cell: Cell, term: string, alias: bool, sim: Similarity)
    requires IsSimilarity(sim) && TierOf(cell.text, term).Approximate?
    ensures ScoreOne(cell.text, term, WeightOf(cell.field, alias), sim) <= FUZZY_CEILING
  {
    hide TierOf;
    var s := sim(cell.text, term);
    match cell.field
    case Name =>
    case Current(_) =>
    case History =>
  }

  /** No spelling of any term is in the cell. */
  ghost predicate OnlyGuesses(cell: Cell, terms: seq<Spellings>) {
    forall i, j :: 0 <= i < |terms| && 0 <= j < |terms[i]| ==> TierOf(cell.text, terms[i][j]).Approximate?
  }

  lemma {:induction false} GuessesStayLow(cell: Cell, spellings: seq<string>, alias: bool, sim: Similarity)
    requires IsSimilarity(sim) && forall j :: 0 <= j < |spellings| ==> TierOf(cell.text, spellings[j]).Approximate?
    ensures Score(cell, spellings, alias, sim) <= FUZZY_CEILING
  {
    hide TierOf, WeightOf, ScoreOne;
    if spellings != [] {
      GuessOne(cell, spellings[0], alias, sim);
      GuessesStayLow(cell, spellings[1..], true, sim);
    }
  }

  lemma {:induction false} GuessedCellStaysLow(cell: Cell, terms: seq<Spellings>, sim: Similarity)
    requires IsSimilarity(sim) && OnlyGuesses(cell, terms)
    ensures CellScore(cell, terms, sim) <= FUZZY_CEILING
  {
    hide TierOf, Score;
    if terms != [] {
      assert forall j :: 0 <= j < |terms[0]| ==> TierOf(cell.text, terms[0][j]).Approximate?;
      GuessesStayLow(cell, terms[0], false, sim);
      assert forall i :: 0 <= i < |terms| - 1 ==> terms[1..][i] == terms[i + 1];
      GuessedCellStaysLow(cell, terms[1..], sim);
    }
  }

  lemma {:induction false} GuessedRowStaysLow(cells: seq<Cell>, terms: seq<Spellings>, sim: Similarity)
    requires IsSimilarity(sim) && forall c <- cells :: OnlyGuesses(c, terms)
    ensures RowScore(cells, terms, sim) <= FUZZY_CEILING
  {
    hide OnlyGuesses, CellScore;
    if cells != [] {
      assert cells[0] in cells;
      GuessedCellStaysLow(cells[0], terms, sim);
      GuessedRowStaysLow(cells[1..], terms, sim);
    }
  }

  lemma {:induction false} AtLeastTheSpelling(cell: Cell, spellings: seq<string>, j: nat, alias: bool, sim: Similarity)
    requires j < |spellings|
    ensures Score(cell, spellings, alias, sim) >= ScoreOne(cell.text, spellings[j], WeightOf(cell.field, alias || j > 0), sim)
  {
    hide ScoreOne, WeightOf;
    if j > 0 {
      AtLeastTheSpelling(cell, spellings[1..], j - 1, true, sim);
    }
  }

  lemma {:induction false} AtLeastTheTerm(cell: Cell, terms: seq<Spellings>, i: nat, sim: Similarity)
    requires i < |terms|
    ensures CellScore(cell, terms, sim) >= Score(cell, terms[i], false, sim)
  {
    if i > 0 {
      AtLeastTheTerm(cell, terms[1..], i - 1, sim);
    }
  }

  lemma {:induction false} AtLeastTheCell(cells: seq<Cell>, k: nat, terms: seq<Spellings>, sim: Similarity)
    requires k < |cells|
    ensures RowScore(cells, terms, sim) >= CellScore(cells[k], terms, sim)
  {
    hide CellScore;
    if k > 0 {
      AtLeastTheCell(cells[1..], k - 1, terms, sim);
    }
  }

  /** Some spelling of some term is a precise hit of that kind in some cell. */
  ghost predicate HasPreciseHit(row: seq<Cell>, terms: seq<Spellings>) {
    exists k, i, j :: 0 <= k < |row| && 0 <= i < |terms| && 0 <= j < |terms[i]| && IsPreciseHit(row[k], terms[i][j], j > 0)
  }

  predicate IsPreciseHit(cell: Cell, spelling: string, alias: bool) {
    OutranksGuesses(TierOf(cell.text, spelling), cell.field, alias)
  }

  lemma PreciseCellsComeFirst(row: seq<Cell>, guess: seq<Cell>, terms: seq<Spellings>, sim: Similarity)
    requires IsSimilarity(sim) && HasPreciseHit(row, terms) && forall c <- guess :: OnlyGuesses(c, terms)
    ensures RowScore(row, terms, sim) > RowScore(guess, terms, sim)
  {
    var k, i, j :| 0 <= k < |row| && 0 <= i < |terms| && 0 <= j < |terms[i]| && IsPreciseHit(row[k], terms[i][j], j > 0);
    GuessedRowStaysLow(guess, terms, sim);
    AtLeastTheCell(row, k, terms, sim);
    AtLeastTheTerm(row[k], terms, i, sim);
    AtLeastTheSpelling(row[k], terms[i], j, false, sim);
    PreciseOne(row[k], terms[i][j], j > 0, sim);
    hide *;
  }

  lemma PreciseOne(cell: Cell, term: string, alias: bool, sim: Similarity)
    requires OutranksGuesses(TierOf(cell.text, term), cell.field, alias)
    ensures ScoreOne(cell.text, term, WeightOf(cell.field, alias), sim) > FUZZY_CEILING
  {
    PreciseScores(TierOf(cell.text, term), cell.field, alias);
    hide TierOf, WeightOf;
  }

  // --- What the tiers and scores are ------------------------------------------------------------

  lemma {:induction false} ContainsIff(text: string, term: string)
    ensures Contains(text, term) <==> exists before: string, after: string :: text == before + term + after
  {
    if term <= text {
      assert text == "" + term + text[|term|..];
    } else if text != "" {
      ContainsIff(text[1..], term);
      if before: string, after: string :| text[1..] == before + term + after {
        assert text == ([text[0]] + before) + term + after;
      }
    }
    if before: string, after: string :| text == before + term + after {
      if before == "" {
        assert term <= text;
      } else {
        assert text[1..] == before[1..] + term + after;
      }
    }
  }

  /** The tiers: the whole cell, its beginning, somewhere in it, or not in it. */
  lemma TiersAre(text: string, term: string)
    ensures TierOf(text, term) == Exact <==> text == term
    ensures TierOf(text, term) == Prefix <==> text != term && exists after: string :: text == term + after
    ensures TierOf(text, term) == Approximate <==> !exists before: string, after: string :: text == before + term + after
  {
    ContainsIff(text, term);
    if term <= text {
      assert text == term + text[|term|..];
      assert text == "" + term + text[|term|..];
    }
    hide Contains;
  }

  /** Of hits of one tier, one on the name counts more than one on the current employment, and that more than one in
      the history; a synonym counts less than the term; and of hits in one place the better tier counts more. */
  lemma HitsAreOrdered(tier: Tier, column: Column, field: Field, alias: bool)
    requires !tier.Approximate?
    ensures TierScore(tier) * WeightOf(Name, alias) > TierScore(tier) * WeightOf(Current(column), alias) > TierScore(tier) * WeightOf(History, alias) > 0.0
    ensures TierScore(tier) * WeightOf(field, true) < TierScore(tier) * WeightOf(field, false)
    ensures TierScore(Exact) * WeightOf(field, alias) > TierScore(Prefix) * WeightOf(field, alias) > TierScore(Inside) * WeightOf(field, alias)
  {
  }

  /** A guess counts with its similarity, if the term is long enough to guess by. */
  lemma GuessesCount(text: string, term: string, field: Field, alias: bool, sim: Similarity)
    requires TierOf(text, term).Approximate?
    ensures ScoreOne(text, term, WeightOf(field, alias), sim) == if |term| < 4 then 0.0 else 50.0 * sim(text, term) * WeightOf(field, alias)
  {
    hide TierOf, WeightOf;
  }

  /** One of the cells, for one spelling of one of the terms, gives a row its score, if anything does. */
  ghost predicate Gives(cells: seq<Cell>, terms: seq<Spellings>, sim: Similarity, score: real) {
    exists k, i, j :: 0 <= k < |cells| && 0 <= i < |terms| && 0 <= j < |terms[i]|
                      && score == ScoreOne(cells[k].text, terms[i][j], WeightOf(cells[k].field, j > 0), sim)
  }

  lemma {:induction false} SpellingGives(cell: Cell, spellings: seq<string>, alias: bool, sim: Similarity)
    ensures var score := Score(cell, spellings, alias, sim);
            score == 0.0 || exists j :: 0 <= j < |spellings| && score == ScoreOne(cell.text, spellings[j], WeightOf(cell.field, alias || j > 0), sim)
  {
    hide ScoreOne, WeightOf;
    if spellings != [] {
      SpellingGives(cell, spellings[1..], true, sim);
      var rest := Score(cell, spellings[1..], true, sim);
      if j :| 0 <= j < |spellings| - 1 && rest == ScoreOne(cell.text, spellings[1..][j], WeightOf(cell.field, true || j > 0), sim) {
        assert spellings[1..][j] == spellings[j + 1];
        assert rest == ScoreOne(cell.text, spellings[j + 1], WeightOf(cell.field, alias || j + 1 > 0), sim);
      }
      assert spellings[0] == spellings[0] && (alias || 0 > 0) == alias;
    }
  }

  lemma {:induction false} TermGives(cell: Cell, terms: seq<Spellings>, sim: Similarity)
    ensures var score := CellScore(cell, terms, sim); score == 0.0 || Gives([cell], terms, sim, score)
  {
    hide ScoreOne, WeightOf, Score;
    if terms != [] {
      TermGives(cell, terms[1..], sim);
      SpellingGives(cell, terms[0], false, sim);
      var rest := CellScore(cell, terms[1..], sim);
      if Gives([cell], terms[1..], sim, rest) {
        var k, i, j :| 0 <= k < 1 && 0 <= i < |terms| - 1 && 0 <= j < |terms[1..][i]|
                       && rest == ScoreOne([cell][k].text, terms[1..][i][j], WeightOf([cell][k].field, j > 0), sim);
        assert terms[1..][i] == terms[i + 1];
        assert [cell][k] == cell;
        assert Gives([cell], terms, sim, rest);
      }
      var first := Score(cell, terms[0], false, sim);
      if first != 0.0 {
        var j :| 0 <= j < |terms[0]| && first == ScoreOne(cell.text, terms[0][j], WeightOf(cell.field, false || j > 0), sim);
        assert [cell][0] == cell;
        assert Gives([cell], terms, sim, first);
      }
    }
  }

  lemma {:induction false} RowScoreIsTheBest(cells: seq<Cell>, terms: seq<Spellings>, sim: Similarity)
    ensures var score := RowScore(cells, terms, sim);
            && (score == 0.0 || Gives(cells, terms, sim, score))
            && forall k, i, j :: 0 <= k < |cells| && 0 <= i < |terms| && 0 <= j < |terms[i]| ==>
                 score >= ScoreOne(cells[k].text, terms[i][j], WeightOf(cells[k].field, j > 0), sim)
  {
    hide ScoreOne, WeightOf, CellScore, Score;
    forall k, i, j | 0 <= k < |cells| && 0 <= i < |terms| && 0 <= j < |terms[i]|
      ensures RowScore(cells, terms, sim) >= ScoreOne(cells[k].text, terms[i][j], WeightOf(cells[k].field, j > 0), sim)
    {
      AtLeastTheCell(cells, k, terms, sim);
      AtLeastTheTerm(cells[k], terms, i, sim);
      AtLeastTheSpelling(cells[k], terms[i], j, false, sim);
    }
    if cells != [] {
      RowScoreIsTheBest(cells[1..], terms, sim);
      TermGives(cells[0], terms, sim);
      hide RowScore;
      GivesMore(cells, terms, sim, CellScore(cells[0], terms, sim));
      GivesMore(cells, terms, sim, RowScore(cells[1..], terms, sim));
      RowScoreSplits(cells, terms, sim);
    }
  }

  lemma RowScoreSplits(cells: seq<Cell>, terms: seq<Spellings>, sim: Similarity)
    requires cells != []
    ensures RowScore(cells, terms, sim) == CellScore(cells[0], terms, sim) || RowScore(cells, terms, sim) == RowScore(cells[1..], terms, sim)
  {
    hide CellScore;
  }

  lemma GivesMore(cells: seq<Cell>, terms: seq<Spellings>, sim: Similarity, score: real)
    requires cells != []
    ensures Gives([cells[0]], terms, sim, score) || Gives(cells[1..], terms, sim, score) ==> Gives(cells, terms, sim, score)
  {
    hide ScoreOne, WeightOf;
    if Gives([cells[0]], terms, sim, score) {
      var k, i, j :| 0 <= k < 1 && 0 <= i < |terms| && 0 <= j < |terms[i]|
                     && score == ScoreOne([cells[0]][k].text, terms[i][j], WeightOf([cells[0]][k].field, j > 0), sim);
      assert [cells[0]][k] == cells[0];
    } else if Gives(cells[1..], terms, sim, score) {
      var k, i, j :| 0 <= k < |cells| - 1 && 0 <= i < |terms| && 0 <= j < |terms[i]|
                     && score == ScoreOne(cells[1..][k].text, terms[i][j], WeightOf(cells[1..][k].field, j > 0), sim);
      assert cells[1..][k] == cells[k + 1];
    }
  }

  // --- All segments of a query ------------------------------------------------------------------

  /** A segment as it is scored: its role, and its phrase and words with their synonyms. */
  datatype Segment = Segment(role: SearchTerms.Role, terms: seq<Spellings>)

  /** The cells a segment may look at. */
  predicate Visible(role: SearchTerms.Role, f: Field) {
    match role
    case Any => true
    case Employer => f == Current(EmployerName) || f == History
    case Place => f == Current(Location)
  }

  function Seen(cells: seq<Cell>, role: SearchTerms.Role): seq<Cell> {
    if cells == [] then [] else (if Visible(role, cells[0].field) then [cells[0]] else []) + Seen(cells[1..], role)
  }

  /** A segment looks at every cell, after "at" only at where someone works or worked, and after a word for a place only
      at where they are and in which industry. */
  lemma {:induction false} SeenIff(cells: seq<Cell>, role: SearchTerms.Role, c: Cell)
    ensures c in Seen(cells, role) <==>
            && c in cells
            && (role == SearchTerms.Employer ==> c.field == Current(EmployerName) || c.field == History)
            && (role == SearchTerms.Place ==> c.field == Current(Location))
  {
    if cells != [] {
      SeenIff(cells[1..], role, c);
      assert c in cells <==> c == cells[0] || c in cells[1..];
    }
  }

  /** `relevance_expression`: the scores of the segments are summed. */
  function Relevance(cells: seq<Cell>, segments: seq<Segment>, sim: Similarity): real {
    if segments == [] then 0.0
    else RowScore(Seen(cells, segments[0].role), segments[0].terms, sim) + Relevance(cells, segments[1..], sim)
  }

  /** Every segment counts, and one that is alone counts as much as its best cell. */
  lemma {:induction false} EverySegmentCounts(cells: seq<Cell>, a: seq<Segment>, b: seq<Segment>, s: Segment, sim: Similarity)
    ensures Relevance(cells, a + b, sim) == Relevance(cells, a, sim) + Relevance(cells, b, sim)
    ensures Relevance(cells, [], sim) == 0.0 && Relevance(cells, [s], sim) == RowScore(Seen(cells, s.role), s.terms, sim)
  {
    hide RowScore, Seen;
    assert [s][1..] == [];
    if a == [] {
      assert a + b == b;
    } else {
      assert (a + b)[1..] == a[1..] + b;
      EverySegmentCounts(cells, a[1..], b, s, sim);
    }
  }

  /** Among the cells a segment may look at, a row has only guesses for it. */
  ghost predicate OnlyGuessesFor(cells: seq<Cell>, s: Segment) {
    forall c <- Seen(cells, s.role) :: OnlyGuesses(c, s.terms)
  }

  /** For any similarity, a row with such a hit for every segment of a query ranks above every row that has
      only guesses for all of them. */
  lemma {:induction false} PreciseRowsComeFirst(row: seq<Cell>, guess: seq<Cell>, segments: seq<Segment>, sim: Similarity)
    requires IsSimilarity(sim) && segments != []
    requires forall s <- segments :: HasPreciseHit(Seen(row, s.role), s.terms) && OnlyGuessesFor(guess, s)
    ensures Relevance(row, segments, sim) > Relevance(guess, segments, sim)
  {
    hide HasPreciseHit, OnlyGuesses, RowScore, Seen, IsSimilarity;
    var s := segments[0];
    assert s in segments;
    PreciseCellsComeFirst(Seen(row, s.role), Seen(guess, s.role), s.terms, sim);
    if |segments| > 1 {
      PreciseRowsComeFirst(row, guess, segments[1..], sim);
    } else {
      assert segments[1..] == [];
    }
  }

  /** Otherwise a guess can win: someone whose name looks enough like the term ranks above someone who did
      work at a place that contains it. */
  lemma ANameGuessBeatsAFormerEmployer(sim: Similarity)
    requires sim("sacks", "sachs") > 0.84
    ensures var terms: seq<Spellings> := [["sachs"]];
            RowScore([Cell(Name, "sacks")], terms, sim) > RowScore([Cell(History, "goldmansachs")], terms, sim)
  {
    SachsTiers();
    var guess, former := Cell(Name, "sacks"), Cell(History, "goldmansachs");
    OneCell(guess, "sachs", sim);
    OneCell(former, "sachs", sim);
    hide TierOf, RowScore;
    assert ScoreOne("sacks", "sachs", 1.0, sim) > 42.0;
    assert ScoreOne("goldmansachs", "sachs", 0.7, sim) == 42.0;
  }

  lemma OneCell(cell: Cell, term: string, sim: Similarity)
    ensures RowScore([cell], [[term]], sim) == Max(Max(Max(ScoreOne(cell.text, term, Weight(cell.field), sim), 0.0), 0.0), 0.0)
  {
    hide ScoreOne;
    var terms: seq<Spellings> := [[term]];
    assert [cell][1..] == [] && [term][1..] == [] && terms[1..] == [];
    assert Score(cell, [], true, sim) == 0.0;
    assert Score(cell, terms[0], false, sim) == Max(ScoreOne(cell.text, term, Weight(cell.field), sim), 0.0);
    assert CellScore(cell, [], sim) == 0.0;
    assert CellScore(cell, terms, sim) == Max(Score(cell, terms[0], false, sim), 0.0);
    assert RowScore([], terms, sim) == 0.0;
  }

  lemma SachsTiers()
    ensures TierOf("sacks", "sachs") == Approximate && TierOf("goldmansachs", "sachs") == Inside
  {
    NotInside("sacks");
    assert "goldmansachs"[7..] == "sachs";
    InsideFrom("goldmansachs", "sachs", 7);
    assert "goldmansachs"[0] != "sachs"[0];
  }

  lemma {:induction false} InsideFrom(text: string, term: string, n: nat)
    requires n <= |text| && term <= text[n..]
    ensures Contains(text, term)
  {
    if n > 0 {
      assert text[1..][n - 1..] == text[n..];
      InsideFrom(text[1..], term, n - 1);
    }
  }

  lemma NotInside(text: string)
    requires text == "sacks"
    ensures !Contains(text, "sachs")
  {
    assert text[3] != "sachs"[3];
    ShorterHoldsNot(text[1..], "sachs");
  }

  lemma {:induction false} ShorterHoldsNot(text: string, term: string)
    requires |text| < |term|
    ensures !Contains(text, term)
  {
    if text != "" {
      ShorterHoldsNot(text[1..], term);
    }
  }
}
