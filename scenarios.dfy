/** Worked examples on a three-idiom table. */
module Scenarios {
  import opened Pinyin
  import opened Constraints
  import opened Solver

  /** 阿鼻地狱 ā bí dì yù, 狗急跳墙 gǒu jí tiào qiáng, 守口如瓶 shǒu kǒu rú píng. */
  const Abi: Record := Record("阿鼻地狱", [Slot("", "a", 1), Slot("b", "i", 2), Slot("d", "i", 4), Slot("y", "u", 4)])
  const Gouji: Record := Record("狗急跳墙", [Slot("g", "ou", 3), Slot("j", "i", 2), Slot("t", "iao", 4), Slot("q", "iang", 2)])
  const Shoukou: Record := Record("守口如瓶", [Slot("sh", "ou", 3), Slot("k", "ou", 3), Slot("r", "u", 2), Slot("p", "ing", 2)])

  const Table: seq<Record> := [Abi, Gouji, Shoukou]

  const AllCorrect: SlotFeedback := SlotFeedback(Correct, Correct, Correct)

  /** Guess 阿鼻地狱: the first two glyphs correct, 地 and 狱 absent, every
      phonetic attribute correct. */
  const FirstRound: Round := Round("阿鼻地狱", Abi.profile, [Correct, Correct, Absent, Absent],
                                   [AllCorrect, AllCorrect, AllCorrect, AllCorrect])

  /** The split of each syllable of the three idioms. */
  lemma SplitA()
    ensures SyllableOf("ā") == Slot("", "a", 1)
  {
    var s := "ā";
    InitialLengths();
    assert forall i :: 0 <= i < |Initials| ==> Initials[i][0] != 'a';
    SyllableOfMarked(s, "a", 0, 23);
  }

  lemma SplitBi()
    ensures SyllableOf("bí") == Slot("b", "i", 2)
  {
    var s := "bí";
    assert ToneMark(s[0]).Unmarked?;
    assert Initials[0] == "zh" && Initials[1] == "ch" && Initials[2] == "sh";
    assert Initials[3] == "b";
    OneLetterInitialFirst("bi", 3);
    SyllableOfMarked(s, "bi", 1, 3);
  }

  lemma SplitDi()
    ensures SyllableOf("dì") == Slot("d", "i", 4)
  {
    var s := "dì";
    assert ToneMark(s[0]).Unmarked?;
    assert Initials[0] == "zh" && Initials[1] == "ch" && Initials[2] == "sh";
    assert Initials[7] == "d";
    OneLetterInitialFirst("di", 7);
    SyllableOfMarked(s, "di", 1, 7);
  }

  lemma SplitYu()
    ensures SyllableOf("yù") == Slot("y", "u", 4)
  {
    var s := "yù";
    assert ToneMark(s[0]).Unmarked?;
    assert Initials[0] == "zh" && Initials[1] == "ch" && Initials[2] == "sh";
    assert Initials[21] == "y";
    OneLetterInitialFirst("yu", 21);
    SyllableOfMarked(s, "yu", 1, 21);
  }

  lemma SplitGou()
    ensures SyllableOf("gǒu") == Slot("g", "ou", 3)
  {
    var s := "gǒu";
    assert ToneMark(s[0]).Unmarked? && ToneMark(s[2]).Unmarked?;
    assert Initials[0] == "zh" && Initials[1] == "ch" && Initials[2] == "sh";
    assert Initials[11] == "g";
    OneLetterInitialFirst("gou", 11);
    SyllableOfMarked(s, "gou", 1, 11);
  }

  lemma SplitJi()
    ensures SyllableOf("jí") == Slot("j", "i", 2)
  {
    var s := "jí";
    assert ToneMark(s[0]).Unmarked?;
    assert Initials[0] == "zh" && Initials[1] == "ch" && Initials[2] == "sh";
    assert Initials[14] == "j";
    OneLetterInitialFirst("ji", 14);
    SyllableOfMarked(s, "ji", 1, 14);
  }

  lemma SplitTiao()
    ensures SyllableOf("tiào") == Slot("t", "iao", 4)
  {
    var s := "tiào";
    assert ToneMark(s[0]).Unmarked? && ToneMark(s[1]).Unmarked? && ToneMark(s[3]).Unmarked?;
    assert Initials[0] == "zh" && Initials[1] == "ch" && Initials[2] == "sh";
    assert Initials[8] == "t";
    OneLetterInitialFirst("tiao", 8);
    SyllableOfMarked(s, "tiao", 2, 8);
  }

  lemma SplitQiang()
    ensures SyllableOf("qiáng") == Slot("q", "iang", 2)
  {
    var s := "qiáng";
    assert ToneMark(s[0]).Unmarked? && ToneMark(s[1]).Unmarked? && ToneMark(s[3]).Unmarked? && ToneMark(s[4]).Unmarked?;
    assert Initials[0] == "zh" && Initials[1] == "ch" && Initials[2] == "sh";
    assert Initials[15] == "q";
    OneLetterInitialFirst("qiang", 15);
    SyllableOfMarked(s, "qiang", 2, 15);
  }

  lemma SplitShou()
    ensures SyllableOf("shǒu") == Slot("sh", "ou", 3)
  {
    var s := "shǒu";
    assert ToneMark(s[0]).Unmarked? && ToneMark(s[1]).Unmarked? && ToneMark(s[3]).Unmarked?;
    assert Initials[0] == "zh" && Initials[1] == "ch" && Initials[2] == "sh";
    SyllableOfMarked(s, "shou", 2, 2);
  }

  lemma SplitKou()
    ensures SyllableOf("kǒu") == Slot("k", "ou", 3)
  {
    var s := "kǒu";
    assert ToneMark(s[0]).Unmarked? && ToneMark(s[2]).Unmarked?;
    assert Initials[0] == "zh" && Initials[1] == "ch" && Initials[2] == "sh";
    assert Initials[12] == "k";
    OneLetterInitialFirst("kou", 12);
    SyllableOfMarked(s, "kou", 1, 12);
  }

  lemma SplitRu()
    ensures SyllableOf("rú") == Slot("r", "u", 2)
  {
    var s := "rú";
    assert ToneMark(s[0]).Unmarked?;
    assert Initials[0] == "zh" && Initials[1] == "ch" && Initials[2] == "sh";
    assert Initials[17] == "r";
    OneLetterInitialFirst("ru", 17);
    SyllableOfMarked(s, "ru", 1, 17);
  }

  lemma SplitPing()
    ensures SyllableOf("píng") == Slot("p", "ing", 2)
  {
    var s := "píng";
    assert ToneMark(s[0]).Unmarked? && ToneMark(s[2]).Unmarked? && ToneMark(s[3]).Unmarked?;
    assert Initials[0] == "zh" && Initials[1] == "ch" && Initials[2] == "sh";
    assert Initials[4] == "p";
    OneLetterInitialFirst("ping", 4);
    SyllableOfMarked(s, "ping", 1, 4);
  }

  /** The profile of Abi is what the word's pinyin splits into. */
  lemma AbiProfile()
    ensures Abi.profile == Pad(SplitEach(["ā", "bí", "dì", "yù"]))
  {
    var w := ["ā", "bí", "dì", "yù"];
    SplitA(); SplitBi(); SplitDi(); SplitYu();
    ProfileOfFour(w, Abi.profile);
  }

  /** The profile of Gouji is what the word's pinyin splits into. */
  lemma GoujiProfile()
    ensures Gouji.profile == Pad(SplitEach(["gǒu", "jí", "tiào", "qiáng"]))
  {
    var w := ["gǒu", "jí", "tiào", "qiáng"];
    SplitGou(); SplitJi(); SplitTiao(); SplitQiang();
    ProfileOfFour(w, Gouji.profile);
  }

  /** The profile of Shoukou is what the word's pinyin splits into. */
  lemma ShoukouProfile()
    ensures Shoukou.profile == Pad(SplitEach(["shǒu", "kǒu", "rú", "píng"]))
  {
    var w := ["shǒu", "kǒu", "rú", "píng"];
    SplitShou(); SplitKou(); SplitRu(); SplitPing();
    ProfileOfFour(w, Shoukou.profile);
  }

  /** Marking 地 and 狱 absent rules out 阿鼻地狱 itself, since it holds
      both; the other two fail the correct 阿 at position 1. Nothing is left. */
  lemma FirstRoundLeavesNothing()
    ensures CorpusShaped(Table) && WellFormed(FirstRound)
    ensures Candidates(Table, [FirstRound]) == []
  {
    var h := [FirstRound];
    assert h[0] == FirstRound;
    assert FirstRound.guessWord[0] == '阿' && FirstRound.charFb[0] == Correct;
    assert FirstRound.guessWord[2] == '地' && FirstRound.charFb[2] == Absent;
    assert Abi.word[2] == '地';
    assert !CharOk(Abi.word, 2, FirstRound.guessWord[2], FirstRound.charFb[2]);
    assert !CharOk(Gouji.word, 0, FirstRound.guessWord[0], FirstRound.charFb[0]);
    assert !CharOk(Shoukou.word, 0, FirstRound.guessWord[0], FirstRound.charFb[0]);
    assert !Consistent(Abi, h) && !Consistent(Gouji, h) && !Consistent(Shoukou, h);
    assert Table[0] == Abi && Table[1] == Gouji && Table[2] == Shoukou;
    NoneConsistent(Table, h);
  }

  /** The table's words, in table order. */
  lemma TableWords()
    ensures CorpusShaped(Table)
    ensures Words(Table) == ["阿鼻地狱", "狗急跳墙", "守口如瓶"]
  {
  }

  /** Cancelling that round brings all three idioms back, in table order. */
  lemma CancelRestoresAll()
    ensures CorpusShaped(Table) && HistoryWellFormed([FirstRound])
    ensures Candidates(Table, RemoveAt([FirstRound], 0)) == ["阿鼻地狱", "狗急跳墙", "守口如瓶"]
  {
    assert RemoveAt([FirstRound], 0) == [];
    EmptyHistoryAll(Table);
    TableWords();
  }

  /** Tone 4 marked present at position 2: 狗急跳墙 (tones 3 2 4 2) is kept,
      守口如瓶 (tones 3 3 2 2, no fourth tone) is dropped. */
  lemma TonePresentAtTwo()
    ensures Holds(Gouji, AttrCond(Tone, 2, Number(4), Present))
    ensures !Holds(Shoukou, AttrCond(Tone, 2, Number(4), Present))
  {
    AttrCondMeaning(Gouji, 1, Tone, Number(4), Present);
    AttrCondMeaning(Shoukou, 1, Tone, Number(4), Present);
    assert Column(Gouji.profile[2], Tone) == Number(4);
  }

  /** The same example through the solver object: after the first round
      there is nothing to guess; after cancelling it the first idiom of the
      table is offered again, and a second cancel is refused. */
  method FirstRoundThenCancel() returns (guessAfterRound: string, guessAfterCancel: string, secondCancel: bool)
    ensures guessAfterRound == ""
    ensures guessAfterCancel == "阿鼻地狱"
    ensures !secondCancel
  {
    var solver := new IdiomWordleSolver(Table);
    FirstRoundLeavesNothing();
    solver.AddFeedback(FirstRound);
    assert solver.history == [FirstRound];
    guessAfterRound := solver.NextGuess();
    var ok := solver.CancelFeedback(0);
    assert solver.history == [] by {
      assert solver.history == RemoveAt([FirstRound], 0);
    }
    CancelRestoresAll();
    guessAfterCancel := solver.NextGuess();
    secondCancel := solver.CancelFeedback(0);
  }
}
