/** What one feedback round demands of an idiom (backend/solver.py).

    Two readings of the same round are given here. `Satisfies` is the
    meaning of a round slot by slot, as the game's rules state it. `Cond`
    is the list of WHERE-clause fragments the solver builds from the round,
    each evaluated the way the database evaluates it (1-based `substr`,
    `LIKE '%c%'`, `? IN (col1, col2, col3, col4)`). The lemmas at the end
    show that the two agree. */
module Constraints {
  import opened Pinyin

  /** The judgement on one glyph or one phonetic attribute. */
  datatype Feedback = Correct | Present | Absent

  /** The three phonetic attributes of a slot, in the order the solver
      visits them. */
  datatype Key = Initial | Final | Tone

  const Keys: seq<Key> := [Initial, Final, Tone]

  /** A column value: initials and finals are text, tones are integers. */
  datatype Value = Text(s: string) | Number(n: int)

  function Column(slot: Slot, key: Key): Value
  {
    match key
    case Initial => Text(slot.initial)
    case Final => Text(slot.final)
    case Tone => Number(slot.tone)
  }

  /** The feedback on one syllable, one judgement per attribute. */
  datatype SlotFeedback = SlotFeedback(initial: Feedback, final: Feedback, tone: Feedback)
  {
    function For(key: Key): Feedback
    {
      match key
      case Initial => initial
      case Final => final
      case Tone => tone
    }
  }

  /** One row of the idiom table: the word and its four phonetic slots. */
  datatype Record = Record(word: string, profile: seq<Slot>)

  /** Only four-glyph idioms are stored, each with a four-slot profile. */
  predicate Shaped(rec: Record)
  {
    |rec.word| == 4 && |rec.profile| == 4
  }

  /** One round: the guessed idiom, its pinyin, and the judged feedback. */
  datatype Round = Round(guessWord: string, guessProfile: seq<Slot>,
                         charFb: seq<Feedback>, pinyinFb: seq<SlotFeedback>)

  /** The solver reads entries 0..3 of each list; shorter lists make it fail. */
  predicate WellFormed(r: Round)
  {
    |r.guessWord| >= 4 && |r.guessProfile| >= 4 && |r.charFb| >= 4 && |r.pinyinFb| >= 4
  }

  // ---------------------------------------------------------------------
  // The rules, slot by slot

  /** Glyph c guessed at position p (0-based) with judgement fb. */
  predicate CharOk(word: string, p: nat, c: char, fb: Feedback)
    requires p < |word|
  {
    match fb
    case Correct => word[p] == c
    case Present => c in word && word[p] != c
    case Absent => c !in word
  }

  /** Attribute `key` with value v guessed at slot p with judgement fb.
      An absent attribute is only excluded at its own slot. */
  predicate AttrOk(profile: seq<Slot>, p: nat, key: Key, v: Value, fb: Feedback)
    requires |profile| == 4 && p < 4
  {
    match fb
    case Correct => Column(profile[p], key) == v
    case Present => Column(profile[p], key) != v && exists q :: 0 <= q < 4 && Column(profile[q], key) == v
    case Absent => Column(profile[p], key) != v
  }

  /** The three attribute rules of slot p of round r. */
  predicate SlotOk(profile: seq<Slot>, p: nat, r: Round)
    requires |profile| == 4 && p < 4 && WellFormed(r)
  {
    forall key :: AttrOk(profile, p, key, Column(r.guessProfile[p], key), r.pinyinFb[p].For(key))
  }

  /** An idiom is consistent with a round when all 4 glyph rules and all
      12 attribute rules hold. */
  predicate Satisfies(rec: Record, r: Round)
    requires Shaped(rec) && WellFormed(r)
  {
    && (forall p :: 0 <= p < 4 ==> CharOk(rec.word, p, r.guessWord[p], r.charFb[p]))
    && (forall p :: 0 <= p < 4 ==> SlotOk(rec.profile, p, r))
  }

  predicate HistoryWellFormed(h: seq<Round>)
  {
    forall i :: 0 <= i < |h| ==> WellFormed(h[i])
  }

  /** Consistent with every round of a history. */
  predicate Consistent(rec: Record, h: seq<Round>)
    requires Shaped(rec) && HistoryWellFormed(h)
  {
    forall i :: 0 <= i < |h| ==> Satisfies(rec, h[i])
  }

  // ---------------------------------------------------------------------
  // The WHERE-clause fragments and how the database evaluates them

  /** One WHERE-clause fragment; positions are 1-based as in SQL. */
  datatype Cond =
    | GlyphAt(pos: nat, c: char)                       // substr(word,pos,1)=?
    | GlyphElsewhere(pos: nat, c: char)                // word LIKE ? AND substr(word,pos,1) != ?
    | GlyphNowhere(c: char)                            // word NOT LIKE ?
    | ColumnEq(key: Key, pos: nat, v: Value)           // {key}{pos}=?
    | ColumnElsewhere(key: Key, pos: nat, v: Value)    // {key}{pos}!=? AND ? IN ({key}1,...,{key}4)
    | ColumnNe(key: Key, pos: nat, v: Value)           // {key}{pos}!=?

  /** Every column reference names one of the four columns. */
  predicate CondShaped(cond: Cond)
  {
    match cond
    case GlyphAt(pos, _) => 1 <= pos <= 4
    case GlyphElsewhere(pos, _) => 1 <= pos <= 4
    case GlyphNowhere(_) => true
    case ColumnEq(_, pos, _) => 1 <= pos <= 4
    case ColumnElsewhere(_, pos, _) => 1 <= pos <= 4
    case ColumnNe(_, pos, _) => 1 <= pos <= 4
  }

  predicate CondsShaped(conds: seq<Cond>)
  {
    forall i :: 0 <= i < |conds| ==> CondShaped(conds[i])
  }

  /** SQL substr(w, pos, 1): the glyph at 1-based pos, or '' past the end. */
  function Substr(w: string, pos: nat): (g: string)
    ensures |g| <= 1
    ensures g == "" <==> pos == 0 || pos > |w|
  {
    if 1 <= pos <= |w| then [w[pos - 1]] else ""
  }

  /** SQL `w LIKE '%pat%'`: pat occurs as a contiguous piece of w. */
  predicate Like(w: string, pat: string)
  {
    pat <= w || (w != [] && Like(w[1..], pat))
  }

  /** The four columns `{key}1 .. {key}4` of a row, in order. */
  function ColumnList(rec: Record, key: Key): seq<Value>
    requires Shaped(rec)
  {
    [Column(rec.profile[0], key), Column(rec.profile[1], key),
     Column(rec.profile[2], key), Column(rec.profile[3], key)]
  }

  /** Whether the database keeps row rec under one fragment. */
  predicate Holds(rec: Record, cond: Cond)
    requires Shaped(rec) && CondShaped(cond)
  {
    match cond
    case GlyphAt(pos, c) => Substr(rec.word, pos) == [c]
    case GlyphElsewhere(pos, c) => Like(rec.word, [c]) && Substr(rec.word, pos) != [c]
    case GlyphNowhere(c) => !Like(rec.word, [c])
    case ColumnEq(key, pos, v) => Column(rec.profile[pos - 1], key) == v
    case ColumnElsewhere(key, pos, v) => Column(rec.profile[pos - 1], key) != v && v in ColumnList(rec, key)
    case ColumnNe(key, pos, v) => Column(rec.profile[pos - 1], key) != v
  }

  /** The conjunction of fragments; with none the clause is `1` (true). */
  predicate AllHold(rec: Record, conds: seq<Cond>)
    requires Shaped(rec) && CondsShaped(conds)
  {
    forall i :: 0 <= i < |conds| ==> Holds(rec, conds[i])
  }

  /** The fragment for glyph c at 1-based position pos. */
  function CharCond(pos: nat, c: char, fb: Feedback): (cond: Cond)
    ensures 1 <= pos <= 4 ==> CondShaped(cond)
    ensures !cond.ColumnEq? && !cond.ColumnElsewhere? && !cond.ColumnNe? && cond.c == c
  {
    match fb
    case Correct => GlyphAt(pos, c)
    case Present => GlyphElsewhere(pos, c)
    case Absent => GlyphNowhere(c)
  }

  /** The fragment for attribute key with value v at 1-based position pos. */
  function AttrCond(key: Key, pos: nat, v: Value, fb: Feedback): (cond: Cond)
    ensures (cond.ColumnEq? || cond.ColumnElsewhere? || cond.ColumnNe?) && cond.key == key && cond.pos == pos && cond.v == v
    ensures 1 <= pos <= 4 ==> CondShaped(cond)
  {
    match fb
    case Correct => ColumnEq(key, pos, v)
    case Present => ColumnElsewhere(key, pos, v)
    case Absent => ColumnNe(key, pos, v)
  }

  /** The round's fragment for attribute key of slot i (0-based). */
  function KeyCond(r: Round, i: nat, key: Key): (cond: Cond)
    requires WellFormed(r) && i < 4
    ensures CondShaped(cond)
    ensures (cond.ColumnEq? || cond.ColumnElsewhere? || cond.ColumnNe?) && cond.key == key && cond.pos == i + 1
  {
    AttrCond(key, i + 1, Column(r.guessProfile[i], key), r.pinyinFb[i].For(key))
  }

  /** The four glyph fragments of a round, one per position. */
  function CharConds(r: Round): (conds: seq<Cond>)
    requires WellFormed(r)
  {
    seq(4, i requires 0 <= i < 4 => CharCond(i + 1, r.guessWord[i], r.charFb[i]))
  }

  /** The three attribute fragments of slot i, in key order. */
  function SlotConds(r: Round, i: nat): (conds: seq<Cond>)
    requires WellFormed(r) && i < 4
  {
    [KeyCond(r, i, Keys[0]), KeyCond(r, i, Keys[1]), KeyCond(r, i, Keys[2])]
  }

  /** The attribute fragments of the first n slots. */
  function PinyinConds(r: Round, n: nat): (conds: seq<Cond>)
    requires WellFormed(r) && n <= 4
  {
    if n == 0 then [] else PinyinConds(r, n - 1) + SlotConds(r, n - 1)
  }

  /** All 16 fragments of a round, in the order the solver emits them. */
  function RoundConds(r: Round): (conds: seq<Cond>)
    requires WellFormed(r)
  {
    CharConds(r) + PinyinConds(r, 4)
  }

  /** The fragments of a whole history, round after round. */
  function HistoryConds(h: seq<Round>): (conds: seq<Cond>)
    requires HistoryWellFormed(h)
    ensures CondsShaped(conds)
    ensures |conds| == 16 * |h|
  {
    if h == [] then []
    else
      RoundCondsShaped(h[|h| - 1]);
      HistoryConds(h[..|h| - 1]) + RoundConds(h[|h| - 1])
  }

  // ---------------------------------------------------------------------
  // Lemmas: the fragments mean what the rules say

  /** A round emits 16 fragments, each naming a real column. */
  lemma {:induction false} RoundCondsShaped(r: Round)
    requires WellFormed(r)
    ensures |RoundConds(r)| == 16
    ensures CondsShaped(RoundConds(r))
  {
    PinyinCondsShaped(r, 4);
  }

  lemma {:induction false} PinyinCondsShaped(r: Round, n: nat)
    requires WellFormed(r) && n <= 4
    ensures |PinyinConds(r, n)| == 3 * n
    ensures CondsShaped(PinyinConds(r, n))
  {
    if n > 0 {
      PinyinCondsShaped(r, n - 1);
    }
  }

  /** `LIKE '%c%'` on a single glyph is membership. */
  lemma {:induction false} LikeGlyph(w: string, c: char)
    ensures Like(w, [c]) <==> c in w
  {
    if w != [] {
      LikeGlyph(w[1..], c);
      assert w == [w[0]] + w[1..];
    }
  }

  /** The glyph fragments implement the glyph rules, with the 1-based
      substr position landing on the 0-based glyph. */
  lemma CharCondMeaning(rec: Record, p: nat, c: char, fb: Feedback)
    requires Shaped(rec) && p < 4
    ensures CondShaped(CharCond(p + 1, c, fb))
    ensures fb == Correct ==> (Holds(rec, CharCond(p + 1, c, fb)) <==> rec.word[p] == c)
    ensures fb == Present ==> (Holds(rec, CharCond(p + 1, c, fb)) <==> c in rec.word && rec.word[p] != c)
    ensures fb == Absent ==> (Holds(rec, CharCond(p + 1, c, fb)) <==> c !in rec.word)
  {
    LikeGlyph(rec.word, c);
  }

  /** The attribute fragments implement the attribute rules; `? IN (...)`
      over the four columns is "some slot has that value". */
  lemma AttrCondMeaning(rec: Record, p: nat, key: Key, v: Value, fb: Feedback)
    requires Shaped(rec) && p < 4
    ensures CondShaped(AttrCond(key, p + 1, v, fb))
    ensures fb == Correct ==> (Holds(rec, AttrCond(key, p + 1, v, fb)) <==> Column(rec.profile[p], key) == v)
    ensures fb == Present ==> (Holds(rec, AttrCond(key, p + 1, v, fb)) <==>
                                 Column(rec.profile[p], key) != v &&
                                 exists q :: 0 <= q < 4 && Column(rec.profile[q], key) == v)
    ensures fb == Absent ==> (Holds(rec, AttrCond(key, p + 1, v, fb)) <==> Column(rec.profile[p], key) != v)
  {
    if fb == Present {
      var cols := ColumnList(rec, key);
      if v in cols {
        var q :| 0 <= q < 4 && cols[q] == v;
        assert Column(rec.profile[q], key) == v;
      }
      if exists q :: 0 <= q < 4 && Column(rec.profile[q], key) == v {
        var q :| 0 <= q < 4 && Column(rec.profile[q], key) == v;
        assert cols[q] == v;
      }
    }
  }

  /** A conjunction over a concatenation splits in two. */
  lemma AllHoldAppend(rec: Record, a: seq<Cond>, b: seq<Cond>)
    requires Shaped(rec) && CondsShaped(a) && CondsShaped(b)
    ensures CondsShaped(a + b)
    ensures AllHold(rec, a + b) <==> AllHold(rec, a) && AllHold(rec, b)
  {
    assert forall i :: 0 <= i < |a| ==> (a + b)[i] == a[i];
    assert forall i :: 0 <= i < |b| ==> (a + b)[|a| + i] == b[i];
  }

  /** The three attribute fragments of slot i hold exactly when the three
      attribute rules of that slot do. */
  lemma SlotCondsMeaning(rec: Record, r: Round, i: nat)
    requires Shaped(rec) && WellFormed(r) && i < 4
    ensures CondsShaped(SlotConds(r, i))
    ensures AllHold(rec, SlotConds(r, i)) <==> SlotOk(rec.profile, i, r)
  {
    var slot := SlotConds(r, i);
    forall key
      ensures CondShaped(KeyCond(r, i, key))
      ensures Holds(rec, KeyCond(r, i, key)) <==>
                AttrOk(rec.profile, i, key, Column(r.guessProfile[i], key), r.pinyinFb[i].For(key))
    {
      AttrCondMeaning(rec, i, key, Column(r.guessProfile[i], key), r.pinyinFb[i].For(key));
    }
    assert slot[0] == KeyCond(r, i, Initial) && slot[1] == KeyCond(r, i, Final) && slot[2] == KeyCond(r, i, Tone);
    assert AllHold(rec, slot) <==>
      Holds(rec, KeyCond(r, i, Initial)) && Holds(rec, KeyCond(r, i, Final)) && Holds(rec, KeyCond(r, i, Tone));
  }

  /** The attribute fragments of the first n slots hold exactly when the
      attribute rules of those slots do. */
  lemma {:induction false} PinyinCondsMeaning(rec: Record, r: Round, n: nat)
    requires Shaped(rec) && WellFormed(r) && n <= 4
    ensures CondsShaped(PinyinConds(r, n))
    ensures AllHold(rec, PinyinConds(r, n)) <==> forall p :: 0 <= p < n ==> SlotOk(rec.profile, p, r)
  {
    PinyinCondsShaped(r, n);
    if n > 0 {
      var i := n - 1;
      PinyinCondsMeaning(rec, r, i);
      SlotCondsMeaning(rec, r, i);
      AllHoldAppend(rec, PinyinConds(r, i), SlotConds(r, i));
    }
  }

  /** A round's 16 fragments hold exactly when the idiom satisfies the round. */
  lemma RoundCondsMeaning(rec: Record, r: Round)
    requires Shaped(rec) && WellFormed(r)
    ensures CondsShaped(RoundConds(r))
    ensures AllHold(rec, RoundConds(r)) <==> Satisfies(rec, r)
  {
    RoundCondsShaped(r);
    forall p | 0 <= p < 4
      ensures CondShaped(CharConds(r)[p])
      ensures Holds(rec, CharConds(r)[p]) <==> CharOk(rec.word, p, r.guessWord[p], r.charFb[p])
    {
      CharCondMeaning(rec, p, r.guessWord[p], r.charFb[p]);
    }
    PinyinCondsMeaning(rec, r, 4);
    AllHoldAppend(rec, CharConds(r), PinyinConds(r, 4));
  }

  /** The fragments of a whole history hold exactly when the idiom is
      consistent with every round. */
  lemma {:induction false} HistoryCondsMeaning(rec: Record, h: seq<Round>)
    requires Shaped(rec) && HistoryWellFormed(h)
    ensures AllHold(rec, HistoryConds(h)) <==> Consistent(rec, h)
  {
    if h != [] {
      var init, last := h[..|h| - 1], h[|h| - 1];
      HistoryCondsMeaning(rec, init);
      RoundCondsMeaning(rec, last);
      AllHoldAppend(rec, HistoryConds(init), RoundConds(last));
      assert forall i :: 0 <= i < |init| ==> init[i] == h[i];
    }
  }
}
