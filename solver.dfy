/** The candidate-filtering engine (backend/solver.py): a history of
    feedback rounds and the idioms of the corpus still consistent with all
    of them, recomputed from the whole corpus after every change. */
module Solver {
  import opened Pinyin
  import opened Constraints

  /** Every row of the idiom table has four glyphs and four slots. */
  predicate CorpusShaped(corpus: seq<Record>)
  {
    forall i :: 0 <= i < |corpus| ==> Shaped(corpus[i])
  }

  /** The `word` column of some rows, in order. */
  function Words(recs: seq<Record>): seq<string>
  {
    seq(|recs|, i requires 0 <= i < |recs| => recs[i].word)
  }

  /** The rows consistent with every round of h, in corpus order. */
  function Survivors(corpus: seq<Record>, h: seq<Round>): (s: seq<Record>)
    requires CorpusShaped(corpus) && HistoryWellFormed(h)
    ensures |s| <= |corpus|
    ensures CorpusShaped(s)
    ensures forall j :: 0 <= j < |s| ==> s[j] in corpus && Consistent(s[j], h)
  {
    if corpus == [] then []
    else
      var last := corpus[|corpus| - 1];
      Survivors(corpus[..|corpus| - 1], h) + (if Consistent(last, h) then [last] else [])
  }

  /** The words the solver should offer for history h. */
  function Candidates(corpus: seq<Record>, h: seq<Round>): (ws: seq<string>)
    requires CorpusShaped(corpus) && HistoryWellFormed(h)
    ensures |ws| <= |corpus|
  {
    Words(Survivors(corpus, h))
  }

  /** The rows the database returns for a WHERE clause made of conds. */
  function Selected(corpus: seq<Record>, conds: seq<Cond>): (s: seq<Record>)
    requires CorpusShaped(corpus) && CondsShaped(conds)
    ensures |s| <= |corpus|
    ensures CorpusShaped(s)
    ensures forall j :: 0 <= j < |s| ==> s[j] in corpus && AllHold(s[j], conds)
  {
    if corpus == [] then []
    else
      var last := corpus[|corpus| - 1];
      Selected(corpus[..|corpus| - 1], conds) + (if AllHold(last, conds) then [last] else [])
  }

  // ---------------------------------------------------------------------
  // Properties of the recomputed candidate list

  /** The query built from a history returns exactly the consistent rows. */
  lemma {:induction false} SelectedIsSurvivors(corpus: seq<Record>, h: seq<Round>)
    requires CorpusShaped(corpus) && HistoryWellFormed(h)
    ensures Selected(corpus, HistoryConds(h)) == Survivors(corpus, h)
  {
    if corpus != [] {
      SelectedIsSurvivors(corpus[..|corpus| - 1], h);
      HistoryCondsMeaning(corpus[|corpus| - 1], h);
    }
  }

  /** With no feedback the WHERE clause is `1`: every idiom is a candidate. */
  lemma {:induction false} EmptyHistoryAll(corpus: seq<Record>)
    requires CorpusShaped(corpus)
    ensures Survivors(corpus, []) == corpus
    ensures Candidates(corpus, []) == Words(corpus)
  {
    if corpus != [] {
      var init, last := corpus[..|corpus| - 1], corpus[|corpus| - 1];
      EmptyHistoryAll(init);
      assert Consistent(last, []);
      assert init + [last] == corpus;
    }
  }

  /** A row survives exactly when it is in the corpus and consistent. */
  lemma {:induction false} SurvivorsMembership(corpus: seq<Record>, h: seq<Round>, rec: Record)
    requires CorpusShaped(corpus) && HistoryWellFormed(h)
    ensures rec in Survivors(corpus, h) <==> rec in corpus && Shaped(rec) && Consistent(rec, h)
  {
    if corpus != [] {
      var init := corpus[..|corpus| - 1];
      SurvivorsMembership(init, h, rec);
      assert corpus == init + [corpus[|corpus| - 1]];
    }
  }

  /** A word is a candidate exactly when some corpus row with that word is
      consistent with every round. */
  lemma CandidatesMembership(corpus: seq<Record>, h: seq<Round>, w: string)
    requires CorpusShaped(corpus) && HistoryWellFormed(h)
    ensures w in Candidates(corpus, h) <==>
              exists i :: 0 <= i < |corpus| && corpus[i].word == w && Consistent(corpus[i], h)
  {
    var s := Survivors(corpus, h);
    if w in Candidates(corpus, h) {
      var j :| 0 <= j < |s| && s[j].word == w;
      var i :| 0 <= i < |corpus| && corpus[i] == s[j];
    }
    if exists i :: 0 <= i < |corpus| && corpus[i].word == w && Consistent(corpus[i], h) {
      var i :| 0 <= i < |corpus| && corpus[i].word == w && Consistent(corpus[i], h);
      SurvivorsMembership(corpus, h, corpus[i]);
      var j :| 0 <= j < |s| && s[j] == corpus[i];
      assert Words(s)[j] == w;
    }
  }

  lemma AppendWellFormed(h: seq<Round>, r: Round)
    requires HistoryWellFormed(h) && WellFormed(r)
    ensures HistoryWellFormed(h + [r])
  {
    assert forall i :: 0 <= i < |h| ==> (h + [r])[i] == h[i];
  }

  /** Consistency with h + [r] is consistency with h and with r. */
  lemma ConsistentAppend(rec: Record, h: seq<Round>, r: Round)
    requires Shaped(rec) && HistoryWellFormed(h) && WellFormed(r)
    ensures HistoryWellFormed(h + [r])
    ensures Consistent(rec, h + [r]) <==> Consistent(rec, h) && Satisfies(rec, r)
  {
    assert forall i :: 0 <= i < |h| ==> (h + [r])[i] == h[i];
    assert (h + [r])[|h|] == r;
  }

  /** Recomputing from scratch after adding r gives the same rows, in the
      same order, as filtering the current candidates by r alone. */
  lemma {:induction false} AddIsIncremental(corpus: seq<Record>, h: seq<Round>, r: Round)
    requires CorpusShaped(corpus) && HistoryWellFormed(h) && WellFormed(r)
    ensures HistoryWellFormed(h + [r])
    ensures Survivors(corpus, h + [r]) == Survivors(Survivors(corpus, h), [r])
  {
    AppendWellFormed(h, r);
    if corpus != [] {
      var init, last := corpus[..|corpus| - 1], corpus[|corpus| - 1];
      AddIsIncremental(init, h, r);
      ConsistentAppend(last, h, r);
      var prev := Survivors(init, h);
      if Consistent(last, h) {
        assert Survivors(corpus, h) == prev + [last];
        assert (prev + [last])[..|prev|] == prev;
        assert Consistent(last, [r]) <==> Satisfies(last, r);
      } else {
        assert Survivors(corpus, h) == prev;
      }
    }
  }

  /** Monotonic narrowing: adding a round never adds a candidate, and the
      list never grows. */
  lemma AddNarrows(corpus: seq<Record>, h: seq<Round>, r: Round)
    requires CorpusShaped(corpus) && HistoryWellFormed(h) && WellFormed(r)
    ensures HistoryWellFormed(h + [r])
    ensures |Candidates(corpus, h + [r])| <= |Candidates(corpus, h)|
    ensures forall w :: w in Candidates(corpus, h + [r]) ==> w in Candidates(corpus, h)
  {
    AddIsIncremental(corpus, h, r);
    var before := Survivors(corpus, h);
    var after := Survivors(before, [r]);
    forall w | w in Candidates(corpus, h + [r])
      ensures w in Candidates(corpus, h)
    {
      var j :| 0 <= j < |after| && after[j].word == w;
      var k :| 0 <= k < |before| && before[k] == after[j];
      assert Words(before)[k] == w;
    }
  }

  /** The history with round i taken out, as list.pop(i) leaves it. */
  function RemoveAt(h: seq<Round>, i: nat): (h': seq<Round>)
    requires i < |h|
    ensures |h'| == |h| - 1
    ensures forall j :: 0 <= j < i ==> h'[j] == h[j]
    ensures forall j :: i <= j < |h'| ==> h'[j] == h[j + 1]
  {
    h[..i] + h[i + 1..]
  }

  /** Retracting a round never removes a candidate. */
  lemma RemoveWidens(corpus: seq<Record>, h: seq<Round>, i: nat)
    requires CorpusShaped(corpus) && HistoryWellFormed(h) && i < |h|
    ensures HistoryWellFormed(RemoveAt(h, i))
    ensures forall w :: w in Candidates(corpus, h) ==> w in Candidates(corpus, RemoveAt(h, i))
  {
    var h' := RemoveAt(h, i);
    assert forall j :: 0 <= j < |h'| ==> h'[j] == h[if j < i then j else j + 1];
    forall w | w in Candidates(corpus, h)
      ensures w in Candidates(corpus, h')
    {
      CandidatesMembership(corpus, h, w);
      CandidatesMembership(corpus, h', w);
      var k :| 0 <= k < |corpus| && corpus[k].word == w && Consistent(corpus[k], h);
      assert Consistent(corpus[k], h');
    }
  }

  /** Undo of the round just added restores the history exactly, so the
      recomputed candidates are the ones before the add. */
  lemma UndoRestores(corpus: seq<Record>, h: seq<Round>, r: Round)
    requires CorpusShaped(corpus) && HistoryWellFormed(h) && WellFormed(r)
    ensures HistoryWellFormed(h + [r])
    ensures RemoveAt(h + [r], |h|) == h
    ensures Candidates(corpus, RemoveAt(h + [r], |h|)) == Candidates(corpus, h)
  {
    AppendWellFormed(h, r);
    assert (h + [r])[..|h|] == h;
  }

  /** A round is "all correct" against rec when it guesses rec itself with
      every glyph and attribute marked correct. */
  predicate AllCorrectFor(r: Round, rec: Record)
    requires WellFormed(r) && Shaped(rec)
  {
    && r.guessWord[..4] == rec.word
    && r.guessProfile[..4] == rec.profile
    && (forall p :: 0 <= p < 4 ==> r.charFb[p] == Correct)
    && (forall p :: 0 <= p < 4 ==> r.pinyinFb[p] == SlotFeedback(Correct, Correct, Correct))
  }

  /** An idiom judged all correct stays a candidate, whatever earlier
      rounds it already satisfied. */
  lemma AllCorrectSurvives(corpus: seq<Record>, h: seq<Round>, k: nat, r: Round)
    requires CorpusShaped(corpus) && HistoryWellFormed(h) && WellFormed(r)
    requires k < |corpus| && AllCorrectFor(r, corpus[k]) && Consistent(corpus[k], h)
    ensures HistoryWellFormed(h + [r])
    ensures corpus[k].word in Candidates(corpus, h + [r])
  {
    var rec := corpus[k];
    ConsistentAppend(rec, h, r);
    assert forall p :: 0 <= p < 4 ==> r.guessWord[p] == rec.word[p] by {
      assert forall p :: 0 <= p < 4 ==> r.guessWord[..4][p] == r.guessWord[p];
    }
    assert forall p :: 0 <= p < 4 ==> r.guessProfile[p] == rec.profile[p] by {
      assert forall p :: 0 <= p < 4 ==> r.guessProfile[..4][p] == r.guessProfile[p];
    }
    assert Satisfies(rec, r);
    CandidatesMembership(corpus, h + [r], rec.word);
  }

  /** After a round whose glyphs are all marked correct, every candidate
      is the guessed word. */
  lemma AllCorrectPins(corpus: seq<Record>, h: seq<Round>, j: nat)
    requires CorpusShaped(corpus) && HistoryWellFormed(h)
    requires j < |h| && forall p :: 0 <= p < 4 ==> h[j].charFb[p] == Correct
    ensures forall w :: w in Candidates(corpus, h) ==> w == h[j].guessWord[..4]
  {
    forall w | w in Candidates(corpus, h)
      ensures w == h[j].guessWord[..4]
    {
      CandidatesMembership(corpus, h, w);
      var k :| 0 <= k < |corpus| && corpus[k].word == w && Consistent(corpus[k], h);
      assert Satisfies(corpus[k], h[j]);
      assert forall p :: 0 <= p < 4 ==> CharOk(w, p, h[j].guessWord[p], Correct);
    }
  }

  /** A glyph marked absent in any round occurs in no candidate. */
  lemma AbsentExcludes(corpus: seq<Record>, h: seq<Round>, j: nat, p: nat)
    requires CorpusShaped(corpus) && HistoryWellFormed(h)
    requires j < |h| && p < 4 && h[j].charFb[p] == Absent
    ensures forall w :: w in Candidates(corpus, h) ==> h[j].guessWord[p] !in w
  {
    forall w | w in Candidates(corpus, h)
      ensures h[j].guessWord[p] !in w
    {
      CandidatesMembership(corpus, h, w);
      var k :| 0 <= k < |corpus| && corpus[k].word == w && Consistent(corpus[k], h);
      assert Satisfies(corpus[k], h[j]);
      assert CharOk(w, p, h[j].guessWord[p], h[j].charFb[p]);
    }
  }

  /** Occurrence counts are not tracked: a glyph guessed twice, once marked
      correct and once absent (as standard Wordle marks a glyph the answer
      holds only once), leaves no candidate at all. */
  lemma DuplicateGlyphConflict(corpus: seq<Record>, h: seq<Round>, j: nat, p: nat, q: nat)
    requires CorpusShaped(corpus) && HistoryWellFormed(h)
    requires j < |h| && p < 4 && q < 4
    requires h[j].guessWord[p] == h[j].guessWord[q]
    requires h[j].charFb[p] == Correct && h[j].charFb[q] == Absent
    ensures Candidates(corpus, h) == []
  {
    var c := h[j].guessWord[p];
    forall rec | Shaped(rec)
      ensures !Consistent(rec, h)
    {
      assert Consistent(rec, h) ==> Satisfies(rec, h[j]);
      if rec.word[p] == c {
        assert !CharOk(rec.word, q, c, Absent);
      } else {
        assert !CharOk(rec.word, p, c, Correct);
      }
    }
    NoneConsistent(corpus, h);
  }

  /** When no row is consistent, nothing survives. */
  lemma {:induction false} NoneConsistent(corpus: seq<Record>, h: seq<Round>)
    requires CorpusShaped(corpus) && HistoryWellFormed(h)
    requires forall k :: 0 <= k < |corpus| ==> !Consistent(corpus[k], h)
    ensures Survivors(corpus, h) == []
  {
    if corpus != [] {
      NoneConsistent(corpus[..|corpus| - 1], h);
    }
  }

  // ---------------------------------------------------------------------
  // Emitting the WHERE-clause fragments of one round

  /** Glyph feedback: one fragment per position, chosen by its judgement. */
  method EmitGlyphConds(conds: seq<Cond>, round: Round) returns (out: seq<Cond>)
    requires WellFormed(round)
    ensures out == conds + CharConds(round)
  {
    out := conds;
    for i := 0 to 4
      invariant out == conds + CharConds(round)[..i]
    {
      var pos := i + 1;
      var ch := round.guessWord[i];
      match round.charFb[i] {
        case Correct => out := out + [GlyphAt(pos, ch)];
        case Present => out := out + [GlyphElsewhere(pos, ch)];
        case Absent => out := out + [GlyphNowhere(ch)];
      }
      assert CharConds(round)[..i + 1] == CharConds(round)[..i] + [CharConds(round)[i]];
    }
    assert CharConds(round)[..4] == CharConds(round);
  }

  /** Pinyin feedback: for each position, one fragment per attribute in the
      order initial, final, tone. */
  method EmitPinyinConds(conds: seq<Cond>, round: Round) returns (out: seq<Cond>)
    requires WellFormed(round)
    ensures out == conds + PinyinConds(round, 4)
  {
    out := conds;
    for i := 0 to 4
      invariant out == conds + PinyinConds(round, i)
    {
      ghost var slotStart := out;
      for k := 0 to |Keys|
        invariant out == slotStart + SlotConds(round, i)[..k]
      {
        var key := Keys[k];
        var fb := round.pinyinFb[i].For(key);
        var val := Column(round.guessProfile[i], key);
        assert SlotConds(round, i)[k] == AttrCond(key, i + 1, val, fb);
        match fb {
          case Correct => out := out + [ColumnEq(key, i + 1, val)];
          case Present => out := out + [ColumnElsewhere(key, i + 1, val)];
          case Absent => out := out + [ColumnNe(key, i + 1, val)];
        }
        assert SlotConds(round, i)[..k + 1] == SlotConds(round, i)[..k] + [SlotConds(round, i)[k]];
      }
      assert SlotConds(round, i)[..3] == SlotConds(round, i);
    }
  }

  // ---------------------------------------------------------------------
  // The solver object

  /** IdiomWordleSolver: the corpus it was built on, the feedback rounds in
      the order they were given, and the current candidate words. */
  class IdiomWordleSolver {
    const corpus: seq<Record>
    var history: seq<Round>
    var candidates: seq<string>

    /** The candidates are always the recomputation from the history. */
    ghost predicate Valid()
      reads this
    {
      && CorpusShaped(corpus)
      && HistoryWellFormed(history)
      && candidates == Candidates(corpus, history)
    }

    /** A fresh solver has no feedback and offers every idiom. */
    constructor (db: seq<Record>)
      requires CorpusShaped(db)
      ensures Valid()
      ensures corpus == db && history == [] && candidates == Words(db)
    {
      corpus := db;
      history := [];
      new;
      candidates := LoadAllWords();
      EmptyHistoryAll(db);
    }

    /** `SELECT word FROM idioms`: every word, in table order. */
    method LoadAllWords() returns (words: seq<string>)
      ensures |words| == |corpus|
      ensures forall i :: 0 <= i < |corpus| ==> words[i] == corpus[i].word
    {
      words := [];
      for i := 0 to |corpus|
        invariant |words| == i
        invariant forall j :: 0 <= j < i ==> words[j] == corpus[j].word
      {
        words := words + [corpus[i].word];
      }
    }

    /** Appends one round and recomputes; the list can only shrink. */
    method AddFeedback(round: Round)
      requires Valid() && WellFormed(round)
      modifies this
      ensures Valid()
      ensures history == old(history) + [round]
      ensures forall w :: w in candidates ==> w in old(candidates)
    {
      AddNarrows(corpus, history, round);
      history := history + [round];
      UpdateCandidates();
    }

    /** Removes round `index` (0-based) and recomputes, or reports false and
      changes nothing when there is no such round. */
    method CancelFeedback(index: int) returns (ok: bool)
      requires Valid()
      modifies this
      ensures Valid()
      ensures ok <==> 0 <= index < |old(history)|
      ensures ok ==> history == old(history)[..index] + old(history)[index + 1..]
      ensures ok ==> forall w :: w in old(candidates) ==> w in candidates
      ensures !ok ==> history == old(history) && candidates == old(candidates)
    {
      if 0 <= index < |history| {
        RemoveWidens(corpus, history, index);
        history := history[..index] + history[index + 1..];
        UpdateCandidates();
        ok := true;
      } else {
        ok := false;
      }
    }

    /** Builds the WHERE clause from every round and runs it over the
      whole table. */
    method UpdateCandidates()
      requires CorpusShaped(corpus) && HistoryWellFormed(history)
      modifies this`candidates
      ensures Valid()
    {
      var conds := BuildConditions();
      candidates := Query(conds);
      SelectedIsSurvivors(corpus, history);
    }

    /** The fragments of every round: four glyph fragments, then three
      attribute fragments for each of the four slots. */
    method BuildConditions() returns (conds: seq<Cond>)
      requires HistoryWellFormed(history)
      ensures conds == HistoryConds(history)
      ensures forall rec :: Shaped(rec) ==> (AllHold(rec, conds) <==> Consistent(rec, history))
    {
      conds := [];
      for n := 0 to |history|
        invariant conds == HistoryConds(history[..n])
      {
        var round := history[n];
        ghost var upto := history[..n + 1];
        assert upto[..n] == history[..n] && upto[n] == round;
        assert HistoryConds(upto) == HistoryConds(history[..n]) + CharConds(round) + PinyinConds(round, 4);
        conds := EmitGlyphConds(conds, round);
        conds := EmitPinyinConds(conds, round);
      }
      assert history[..|history|] == history;
      forall rec | Shaped(rec)
        ensures AllHold(rec, conds) <==> Consistent(rec, history)
      {
        HistoryCondsMeaning(rec, history);
      }
    }

    /** Runs a WHERE clause over the table: the words of the matching rows,
      in table order. */
    method Query(conds: seq<Cond>) returns (words: seq<string>)
      requires CorpusShaped(corpus) && CondsShaped(conds)
      ensures words == Words(Selected(corpus, conds))
    {
      words := [];
      for i := 0 to |corpus|
        invariant words == Words(Selected(corpus[..i], conds))
      {
        var row := corpus[i];
        assert corpus[..i + 1][..i] == corpus[..i];
        if AllHold(row, conds) {
          words := words + [row.word];
        }
      }
      assert corpus[..|corpus|] == corpus;
    }

    /** The current candidates: exactly the words of consistent rows. */
    function GetCandidates(): (c: seq<string>)
      reads this
      requires Valid()
      ensures forall w :: w in c <==>
                exists i :: 0 <= i < |corpus| && corpus[i].word == w && Consistent(corpus[i], history)
    {
      AllCandidatesMembership(corpus, history);
      candidates
    }

    /** The first candidate, or "" when nothing is left. */
    function NextGuess(): (g: string)
      reads this
      requires Valid()
      ensures g == "" <==> candidates == []
      ensures g != "" ==>
                g == candidates[0] &&
                exists i :: 0 <= i < |corpus| && corpus[i].word == g && Consistent(corpus[i], history)
    {
      if candidates != [] then
        var s := Survivors(corpus, history);
        assert |s[0].word| == 4;
        CandidatesMembership(corpus, history, candidates[0]);
        candidates[0]
      else
        ""
    }
  }

  /** CandidatesMembership for every word at once. */
  lemma AllCandidatesMembership(corpus: seq<Record>, h: seq<Round>)
    requires CorpusShaped(corpus) && HistoryWellFormed(h)
    ensures forall w :: w in Candidates(corpus, h) <==>
              exists i :: 0 <= i < |corpus| && corpus[i].word == w && Consistent(corpus[i], h)
  {
    forall w {
      CandidatesMembership(corpus, h, w);
    }
  }

  /** Adding a round and immediately cancelling it leaves the solver's
      history and candidates as they were. */
  method AddThenUndo(s: IdiomWordleSolver, round: Round)
    requires s.Valid() && WellFormed(round)
    modifies s
    ensures s.Valid()
    ensures s.history == old(s.history) && s.candidates == old(s.candidates)
  {
    var n := |s.history|;
    s.AddFeedback(round);
    var ok := s.CancelFeedback(n);
    assert ok;
    assert old(s.history + [round])[..n] == old(s.history);
  }
}
