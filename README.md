# Idiom Wordle solver — a verified Dafny model

This project models the candidate-filtering core of an idiom Wordle helper. The
game is a Wordle over four-character Chinese idioms. Each guess gets feedback on
every glyph and on every phonetic attribute of every syllable. The attributes
are the initial (声母), the final (韵母) and the tone. Each judgement is
correct, present or absent.

The solver keeps the rounds in order. After every change it recomputes the
candidate idioms from the whole table. It turns every round into WHERE-clause
fragments and runs one query.

It has three parts:

- **`pinyin.dfy`** (module `Pinyin`) models `backend/utils.py`.
  - The tone table is `ToneMark` and the initials list is `Initials`.
  - `split_syllable` is `SplitSyllable`, built from its two loops `StripTones` and `PeelInitial`.
  - `split_pinyin_word` is `SplitPinyinWord`, which uses `PadProfile` for its padding loop.
  - Each method is proved against a functional specification (`Base`, `LastTone`, `FirstPrefix`, `SyllableOf`, `SplitEach`, `Pad`). The lemmas about those functions state what `utils.py` promises.
- **`constraints.dfy`** (module `Constraints`) defines the data and the two readings of a round.
  - The data are the table row (`Record`: four glyphs and four phonetic `Slot`s) and the feedback round (`Round`).
  - The first reading is the game rules, slot by slot: `CharOk`, `AttrOk`, `SlotOk`, `Satisfies` and `Consistent`.
  - The second reading is the typed WHERE-clause fragments the solver emits (`Cond`), each evaluated as the database evaluates it. That means 1-based `substr`, `LIKE '%c%'`, and `? IN (col1,…,col4)`.
  - The lemmas prove that the two readings agree, fragment by fragment, round by round and history by history.
- **`solver.dfy`** (module `Solver`) holds the class `IdiomWordleSolver`. It has the table (`corpus`), the `history` and the `candidates`.
  - `AddFeedback`, `CancelFeedback` and `UpdateCandidates` change state. `BuildConditions` runs the code's nested loops, through `EmitGlyphConds` and `EmitPinyinConds`, and `Query` scans the table.
  - The invariant `Valid()` says the candidates are always the words of the table rows consistent with every round (`Candidates`).
  - Lemmas state the consequences:
    - exact membership;
    - the whole table with no feedback;
    - monotonic narrowing on add and widening on cancel;
    - add-then-cancel restores the candidates;
    - an absent glyph is excluded everywhere;
    - an all-correct answer survives;
    - the duplicate-glyph conflict.
- **`scenarios.dfy`** (module `Scenarios`) works a three-idiom example: 阿鼻地狱, 狗急跳墙, 守口如瓶. Each stored profile is proved to be the split of the idiom's pinyin, syllable by syllable. The feedback examples are stated and proved on that table.

A glyph is a Dafny `char`, which is a Unicode scalar value. A Python `str` indexes code points, and the two agree except for lone surrogates. The table is a `seq<Record>` in table order. It stands for the rows of the `idioms` table; the result of `SELECT word FROM idioms` is `Words(corpus)`, in the same order, with no `ORDER BY`.

Two behaviours of the code are worth stating outright:

- A round whose lists are shorter than four makes `add_feedback` fail while recomputing, after the round has already been appended (`backend/solver.py:26-27`). The model requires `WellFormed(round)`: every list has at least four entries, and longer lists are accepted, since only entries 0..3 are read.
- Guess 阿鼻地狱 with glyph feedback correct, correct, absent, absent. "Absent" on 地 becomes `word NOT LIKE '%地%'` (`backend/solver.py:63-65`), and that rejects 阿鼻地狱 itself, since it contains 地. The other two idioms fail the correct 阿, so the candidate list becomes empty. `Scenarios.FirstRoundLeavesNothing` proves this.

## Model

| member | source | states |
|---|---|---|
| Pinyin.ToneMark | backend/utils.py:5-12 | definition: each of the 24 tone-marked vowels of a, e, i, o, u and ü maps to its plain vowel and its tone (macron 1, acute 2, caron 3, grave 4); every other character is unmarked, as when `ch in TONE_MAP` fails |
| Pinyin.ToneMarkRange | backend/utils.py:5-12 | every tone in the table lies in 1..4, and no plain vowel it yields is itself tone-marked |
| Pinyin.Base | backend/utils.py:26-32 | stripping tone marks keeps the length: `\|base\| == \|syllable\|` |
| Pinyin.BaseReplacesMarks | backend/utils.py:27-32 | each tone-marked vowel is replaced by its plain letter; every other character is kept at its position |
| Pinyin.BaseIdempotent | backend/utils.py:27-32 | stripping a second time changes nothing |
| Pinyin.LastTone | backend/utils.py:25-34 | the tone always lies in 0..4 |
| Pinyin.LastToneIsLastMark | backend/utils.py:25-34 | the tone is 0 exactly when no character is marked; otherwise it is the tone of a marked character with no marked character after it (the last assignment wins) |
| Pinyin.LastToneAt | backend/utils.py:27-30 | a marked character with no marked character after it fixes the tone |
| Pinyin.FirstPrefix | backend/utils.py:37-41 | the chosen initial is a prefix of the stripped syllable |
| Pinyin.FirstPrefixIsFirstMatch | backend/utils.py:38-41 | the search returns "" exactly when no entry matches, and otherwise the entry at the least matching index (the `break`) |
| Pinyin.FirstPrefixAt | backend/utils.py:38-41 | when entry j is the first entry from index k on that is a prefix, the search returns it, and "" when no entry is |
| Pinyin.InitialIsFirstMatch | backend/utils.py:15-18 | the same, for the initials list: "" iff no listed initial is a prefix, else the first listed match |
| Pinyin.InitialLengths | backend/utils.py:15-18 | the list has 23 initials: the two-letter "zh", "ch", "sh" first, then twenty one-letter initials |
| Pinyin.InitialHeadsDistinct | backend/utils.py:15-18 | the twenty one-letter initials start with twenty different letters |
| Pinyin.OneLetterInitialFirst | backend/utils.py:15-41 | a one-letter initial that is a prefix of the syllable is the first match whenever no two-letter initial is |
| Pinyin.InitialIsLongest | backend/utils.py:15-18 | because "zh", "ch", "sh" come first, the chosen initial is the longest listed initial that is a prefix ("zh" beats "z") |
| Pinyin.SyllableOf | backend/utils.py:42-44 | `initial + final == base`, and the tone lies in 0..4 |
| Pinyin.SyllableOfMarked | backend/utils.py:20-44 | a split read off character by character: the stripped syllable, the tone of the last marked vowel, the first matching listed initial (none when none matches) and the rest as final |
| Pinyin.ProfileShaped | backend/utils.py:53-55 | definition: a profile has exactly four slots, each with a tone in 0..4 |
| Pinyin.StripTones | backend/utils.py:25-34 | the first loop computes exactly `Base(syllable)` and `LastTone(syllable)` |
| Pinyin.PeelInitial | backend/utils.py:37-41 | the initials loop with its `break` computes exactly the first-match initial |
| Pinyin.SplitSyllable | backend/utils.py:20-44 | split_syllable returns exactly `SyllableOf(syllable)` |
| Pinyin.SplitEach | backend/utils.py:52 | the comprehension yields one slot per syllable |
| Pinyin.Pad | backend/utils.py:53-55 | padding and cutting always give exactly four slots |
| Pinyin.SplitEachSlot | backend/utils.py:52 | slot j of the comprehension is the split of syllable j |
| Pinyin.PadSlots | backend/utils.py:53-55 | padding keeps the first four slots and fills the rest with the empty slot ('', '', 0) |
| Pinyin.ProfileSlots | backend/utils.py:51-55 | slot j of a word's profile is the split of syllable j for j < min(n, 4), every padded slot is ('', '', 0), and every tone lies in 0..4 |
| Pinyin.ProfileOfFour | backend/utils.py:51-55 | a four-syllable word's profile is its four splits in order, neither padded nor cut |
| Pinyin.PadProfile | backend/utils.py:53-55 | the `while` loop and the `[:4]` cut compute exactly `Pad(p)` |
| Pinyin.SplitPinyinWord | backend/utils.py:46-55 | split_pinyin_word returns exactly `Pad(SplitEach(syllables))` |
| Constraints.Column | backend/solver.py:70-72 | definition: `guess_pinyin[i][key]` and column `{key}{i+1}`: initial and final are text, tone is an integer |
| Constraints.Shaped | backend/make_database.py:119-122 | definition: a stored row has four glyphs (the length filter) and a four-slot profile (`split_pinyin_word` always yields four) |
| Constraints.WellFormed | backend/solver.py:49-71 | definition: a round the loops can read without IndexError: the guessed word, its pinyin and both feedback lists have at least four entries |
| Constraints.HistoryWellFormed | backend/solver.py:49 | definition: every round of the history is well-formed |
| Constraints.CharOk | backend/solver.py:55-65 | definition of a glyph rule: correct means glyph p is c; present means c occurs in the word but not at p; absent means c occurs nowhere |
| Constraints.AttrOk | backend/solver.py:74-93 | definition of an attribute rule: correct means slot p has value v; present means slot p differs and some of the four slots has v; absent means slot p differs, with v allowed elsewhere |
| Constraints.SlotOk | backend/solver.py:69-93 | definition of the rule for one slot: its initial, final and tone rules all hold |
| Constraints.Satisfies | backend/solver.py:49-93 | definition: a round holds when its four glyph rules and the three attribute rules of each of its four slots all hold |
| Constraints.Consistent | backend/solver.py:49-96 | definition: an idiom is consistent with a history when it satisfies every round (the rounds are joined by AND) |
| Constraints.Substr | backend/solver.py:56-60 | SQL `substr(word,pos,1)` is at most one glyph, and it is empty exactly when pos is 0 or past the end |
| Constraints.Like | backend/solver.py:59-65 | definition: `word LIKE '%pat%'` holds when pat occurs as a contiguous piece of the word |
| Constraints.ColumnList | backend/solver.py:80-85 | definition: `col_list`, the four columns `{key}1..{key}4` of a row, in order |
| Constraints.CondShaped | backend/solver.py:52-72 | definition: every fragment names a position or column in 1..4, as `pos = i + 1` and `{key}{i + 1}` do |
| Constraints.CondsShaped | backend/solver.py:46-93 | definition: every fragment of a list is shaped |
| Constraints.Holds | backend/solver.py:55-93 | definition: how the database evaluates each of the six fragment shapes on a row, with 1-based positions |
| Constraints.AllHold | backend/solver.py:96 | definition: `" AND ".join(all_conditions)`, and `1` (true) when there are none: every fragment holds |
| Constraints.CharCond | backend/solver.py:55-65 | a glyph judgement becomes a glyph fragment on the guessed glyph (never a column fragment), naming a real position for positions 1..4 |
| Constraints.AttrCond | backend/solver.py:74-93 | an attribute judgement becomes a fragment on column `{key}{pos}` with the guessed value, naming a real column for positions 1..4 |
| Constraints.KeyCond | backend/solver.py:69-72 | slot i's fragment for key names column `{key}{i+1}`, a real column |
| Constraints.CharConds | backend/solver.py:51-65 | definition: the four glyph fragments of a round, in position order |
| Constraints.SlotConds | backend/solver.py:69-93 | definition: the three fragments of slot i, in the order initial, final, tone |
| Constraints.PinyinConds | backend/solver.py:68-93 | definition: the fragments of slots 0..n-1, slot after slot |
| Constraints.RoundConds | backend/solver.py:49-93 | definition: a round's glyph fragments followed by its attribute fragments, the order the loops emit them |
| Constraints.HistoryConds | backend/solver.py:49-93 | a history of n rounds emits 16·n fragments, each naming one of the four columns |
| Constraints.RoundCondsShaped | backend/solver.py:51-93 | one round emits 4 glyph and 12 attribute fragments, each naming a real column |
| Constraints.PinyinCondsShaped | backend/solver.py:68-93 | the first n slots emit 3·n attribute fragments |
| Constraints.LikeGlyph | backend/solver.py:59-65 | `LIKE '%c%'` on a single glyph holds exactly when c occurs in the word |
| Constraints.CharCondMeaning | backend/solver.py:51-65 | correct keeps exactly the rows with `word[p] == c`; present keeps exactly those containing c with `word[p] != c`; absent keeps exactly those not containing c (both directions) |
| Constraints.AttrCondMeaning | backend/solver.py:74-93 | correct keeps exactly `slot[p].k == v`; present keeps exactly `slot[p].k != v` with v at some slot q; absent keeps exactly `slot[p].k != v`, with v still allowed elsewhere |
| Constraints.AllHoldAppend | backend/solver.py:96 | the AND of a concatenation of fragments is the AND of the two parts |
| Constraints.SlotCondsMeaning | backend/solver.py:69-93 | the three attribute fragments of a slot hold exactly when its three attribute rules do |
| Constraints.PinyinCondsMeaning | backend/solver.py:68-93 | the attribute fragments of the first n slots hold exactly when those slots' rules do |
| Constraints.RoundCondsMeaning | backend/solver.py:49-93 | a round's 16 fragments hold exactly when the idiom satisfies the round |
| Constraints.HistoryCondsMeaning | backend/solver.py:44-96 | the WHERE clause of a history (`1` when empty) holds exactly when the idiom is consistent with every round |
| Solver.CorpusShaped | backend/make_database.py:119-122 | definition: every stored row is shaped (four glyphs, four slots) |
| Solver.Words | backend/solver.py:16 | definition: `[row["word"] for row in …]`, the word column of some rows, in order |
| Solver.Selected | backend/solver.py:106-107 | the rows a WHERE clause returns are table rows, at most as many as the table, each meeting every fragment |
| Solver.Survivors | backend/solver.py:106-107 | the surviving rows are table rows, at most as many as the table, each consistent with every round |
| Solver.Candidates | backend/solver.py:106-107 | there are never more candidates than table rows |
| Solver.SelectedIsSurvivors | backend/solver.py:96-107 | the query built from a history returns exactly the consistent rows, in table order |
| Solver.EmptyHistoryAll | backend/solver.py:96 | with no feedback (`WHERE 1`) every idiom is a candidate, in table order |
| Solver.SurvivorsMembership | backend/solver.py:106-107 | a row survives exactly when it is in the table and consistent |
| Solver.CandidatesMembership | backend/solver.py:44-107 | a word is a candidate exactly when some table row with that word is consistent with every round |
| Solver.AllCandidatesMembership | backend/solver.py:44-107 | the same, for all words at once |
| Solver.AppendWellFormed | backend/solver.py:26 | appending a well-formed round keeps the history well-formed |
| Solver.ConsistentAppend | backend/solver.py:26-27 | consistency with h + [r] is consistency with h and with r |
| Solver.AddIsIncremental | backend/solver.py:26-27 | recomputing after an add equals filtering the current survivors by the new round alone |
| Solver.AddNarrows | backend/solver.py:26-27 | adding a round never adds a candidate, and the list never grows |
| Solver.RemoveAt | backend/solver.py:36 | `list.pop(i)`: the rounds before i are kept and the later ones shift down by one |
| Solver.RemoveWidens | backend/solver.py:35-38 | cancelling a round never removes a candidate |
| Solver.UndoRestores | backend/solver.py:26-38 | cancelling the round just added restores the history, and so the candidates |
| Solver.AllCorrectSurvives | backend/solver.py:55-57 | an idiom guessed with everything marked correct stays a candidate when it was one before |
| Solver.AllCorrectPins | backend/solver.py:55-57 | after a round with all four glyphs correct, every candidate is the guessed word |
| Solver.AbsentExcludes | backend/solver.py:63-65 | a glyph marked absent in any round occurs in no candidate |
| Solver.DuplicateGlyphConflict | backend/solver.py:55-65 | a glyph guessed twice in one round, once marked correct and once absent, leaves no candidate |
| Solver.NoneConsistent | backend/solver.py:106-107 | when no row is consistent, the query returns nothing |
| Solver.EmitGlyphConds | backend/solver.py:51-65 | the glyph loop appends exactly the round's four glyph fragments |
| Solver.EmitPinyinConds | backend/solver.py:68-93 | the nested slot/attribute loops append exactly the round's twelve attribute fragments, in the order initial, final, tone |
| Solver.IdiomWordleSolver.Valid | backend/solver.py:8-11 | the object invariant: the table is well-shaped, every round is well-formed, and the candidates are always `Candidates(corpus, history)` |
| Solver.IdiomWordleSolver.constructor | backend/solver.py:8-11 | a new solver has an empty history and offers every word of the table in table order |
| Solver.IdiomWordleSolver.LoadAllWords | backend/solver.py:13-16 | `SELECT word FROM idioms` returns every word, in table order |
| Solver.IdiomWordleSolver.AddFeedback | backend/solver.py:18-27 | the history is the old history plus the round at the end, the candidates are recomputed, and the new list is a subset of the old one |
| Solver.IdiomWordleSolver.CancelFeedback | backend/solver.py:29-42 | the result is true exactly when 0 <= index < \|history\|; then the history is `h[..i] + h[i+1..]` and no candidate is lost; otherwise history and candidates are unchanged |
| Solver.IdiomWordleSolver.UpdateCandidates | backend/solver.py:44-107 | after recomputing, the candidates are exactly the words of the consistent rows (`Valid`) |
| Solver.IdiomWordleSolver.BuildConditions | backend/solver.py:46-96 | the loops emit exactly the history's fragments, and these hold for a row exactly when it is consistent with every round |
| Solver.IdiomWordleSolver.Query | backend/solver.py:106-107 | executing the clause yields the words of the matching rows, in table order |
| Solver.IdiomWordleSolver.GetCandidates | backend/solver.py:109-111 | a word is returned exactly when some table row with that word is consistent with every round |
| Solver.IdiomWordleSolver.NextGuess | backend/solver.py:113-115 | "" exactly when there are no candidates; otherwise the first candidate, which is a consistent table word |
| Solver.AddThenUndo | backend/solver.py:26-38 | an add followed by cancelling that round leaves history and candidates as they were |
| Scenarios.SplitA | backend/utils.py:20-44 | "ā" splits into initial "", final "a", tone 1; no listed initial is a prefix of "a" |
| Scenarios.SplitBi | backend/utils.py:20-44 | "bí" splits into initial "b", final "i", tone 2 |
| Scenarios.SplitDi | backend/utils.py:20-44 | "dì" splits into initial "d", final "i", tone 4 |
| Scenarios.SplitYu | backend/utils.py:20-44 | "yù" splits into initial "y", final "u", tone 4 |
| Scenarios.SplitGou | backend/utils.py:20-44 | "gǒu" splits into initial "g", final "ou", tone 3 |
| Scenarios.SplitJi | backend/utils.py:20-44 | "jí" splits into initial "j", final "i", tone 2 |
| Scenarios.SplitTiao | backend/utils.py:20-44 | "tiào" splits into initial "t", final "iao", tone 4 |
| Scenarios.SplitQiang | backend/utils.py:20-44 | "qiáng" splits into initial "q", final "iang", tone 2 |
| Scenarios.SplitShou | backend/utils.py:20-44 | "shǒu" splits into initial "sh", final "ou", tone 3; "sh" wins over "s" |
| Scenarios.SplitKou | backend/utils.py:20-44 | "kǒu" splits into initial "k", final "ou", tone 3 |
| Scenarios.SplitRu | backend/utils.py:20-44 | "rú" splits into initial "r", final "u", tone 2 |
| Scenarios.SplitPing | backend/utils.py:20-44 | "píng" splits into initial "p", final "ing", tone 2 |
| Scenarios.AbiProfile | backend/utils.py:46-55 | the profile stored for 阿鼻地狱 is the split of "ā bí dì yù" |
| Scenarios.GoujiProfile | backend/utils.py:46-55 | the profile stored for 狗急跳墙 is the split of "gǒu jí tiào qiáng" |
| Scenarios.ShoukouProfile | backend/utils.py:46-55 | the profile stored for 守口如瓶 is the split of "shǒu kǒu rú píng" |
| Scenarios.FirstRoundLeavesNothing | backend/solver.py:55-65 | guessing 阿鼻地狱 with 地 and 狱 absent excludes 阿鼻地狱 itself, and the other two fail the correct 阿, so nothing is left |
| Scenarios.CancelRestoresAll | backend/solver.py:35-38 | cancelling that round brings all three idioms back, in table order |
| Scenarios.TonePresentAtTwo | backend/solver.py:78-89 | tone 4 present at position 2 keeps 狗急跳墙 (tones 3 2 4 2) and drops 守口如瓶 (no fourth tone) |
| Scenarios.FirstRoundThenCancel | backend/solver.py:18-115 | through the object: no guess after the round, 阿鼻地狱 offered after cancelling it, and a second cancel refused |

## Left out

- The SQLite plumbing is left out: the connection, the cursor, table creation and insertion. The table is a `seq<Record>` given to the constructor. Random idiom lookup depends on the database's randomness and is not modelled.
- SQL text and parameter lists are not built as strings. Each fragment is a typed `Cond`, evaluated with the meaning SQLite gives it. `LIKE` wildcards inside a guessed glyph, ASCII case folding, NULL columns and column type affinity are not modelled. None of them arise for CJK glyphs and well-formed rows.
- The debug `print` output of `cancel_feedback` and `_update_candidates` is left out.
- Building the database from JSON is left out. The only fact used from it is that every stored idiom has four glyphs and a four-slot profile. It appears as the precondition `CorpusShaped`.
- The web layer (`main.py`) is left out: routes, request models and the process-global solver. Its reset is a fresh `IdiomWordleSolver`.
- `Pinyin.SplitPinyinWord`: `str.split()` on whitespace is not modelled. The method takes the list of syllables.
- `Solver.IdiomWordleSolver.AddFeedback`: a malformed round is excluded by a precondition. The code appends such a round and then fails with an IndexError or KeyError, leaving it in the history. Missing feedback keys cannot occur, because a slot's feedback is a record with all three attributes.
- Guess entries are single glyphs (`char`). The code takes a list of strings, and a multi-character entry would make `LIKE` match a substring. That is not modelled.
- `Solver.IdiomWordleSolver.UpdateCandidates`: the query result is the table filtered in table order. The database returns rows in unspecified order when there is no `ORDER BY`.
- A feedback value other than "correct", "present" or "absent" is ruled out by the `Feedback` datatype. In the code the `Literal` type is not enforced at run time, and the `if`/`elif` chains (`backend/solver.py:55-65`, `74-93`) have no `else`, so such a value adds no condition at all.
- Surrogate code points: a lone surrogate is a valid element of a Python `str` but not a Dafny `char`. Idioms and pinyin never contain one.
