/** Pinyin normalisation: splitting a tone-marked syllable into initial,
    final and tone, and a whole idiom's pinyin into exactly four slots
    (backend/utils.py). */
module Pinyin {

  /** One syllable's phonetic profile. `tone` 0 is the neutral tone. */
  datatype Slot = Slot(initial: string, final: string, tone: int)

  /** The slot used to pad a profile with fewer than four syllables. */
  const EmptySlot: Slot := Slot("", "", 0)

  /** What the tone table says of a character: a tone-marked vowel has a
      plain vowel and a tone number; any other character is unmarked. */
  datatype Mark = Marked(plain: char, tone: int) | Unmarked

  /** The tone table: the 24 tone-marked vowels of a, e, i, o, u and ü. */
  function ToneMark(c: char): Mark
  {
    match c
    case 'ā' => Marked('a', 1) case 'á' => Marked('a', 2) case 'ǎ' => Marked('a', 3) case 'à' => Marked('a', 4)
    case 'ē' => Marked('e', 1) case 'é' => Marked('e', 2) case 'ě' => Marked('e', 3) case 'è' => Marked('e', 4)
    case 'ī' => Marked('i', 1) case 'í' => Marked('i', 2) case 'ǐ' => Marked('i', 3) case 'ì' => Marked('i', 4)
    case 'ō' => Marked('o', 1) case 'ó' => Marked('o', 2) case 'ǒ' => Marked('o', 3) case 'ò' => Marked('o', 4)
    case 'ū' => Marked('u', 1) case 'ú' => Marked('u', 2) case 'ǔ' => Marked('u', 3) case 'ù' => Marked('u', 4)
    case 'ǖ' => Marked('ü', 1) case 'ǘ' => Marked('ü', 2) case 'ǚ' => Marked('ü', 3) case 'ǜ' => Marked('ü', 4)
    case _ => Unmarked
  }

  /** The Mandarin initials, in the order they are tried: the retroflex
      two-letter initials come before their one-letter prefixes. */
  const Initials: seq<string> := [
    "zh", "ch", "sh", "b", "p", "m", "f", "d", "t", "n", "l",
    "g", "k", "h", "j", "q", "x", "r", "z", "c", "s", "y", "w"
  ]

  /** Every tone number in the table lies in 1..4, and no plain vowel it
      produces is itself tone-marked. */
  lemma ToneMarkRange(c: char)
    ensures ToneMark(c).Marked? ==> 1 <= ToneMark(c).tone <= 4 && ToneMark(ToneMark(c).plain).Unmarked?
  {
  }

  /** The syllable with every tone mark stripped. */
  function Base(s: string): (b: string)
    ensures |b| == |s|
  {
    if s == [] then []
    else
      var c := s[|s| - 1];
      Base(s[..|s| - 1]) + [if ToneMark(c).Marked? then ToneMark(c).plain else c]
  }

  /** Base replaces each tone-marked vowel by its plain vowel and keeps
      every other character where it is. */
  lemma {:induction false} BaseReplacesMarks(s: string)
    ensures forall i :: 0 <= i < |s| && ToneMark(s[i]).Marked? ==> Base(s)[i] == ToneMark(s[i]).plain
    ensures forall i :: 0 <= i < |s| && ToneMark(s[i]).Unmarked? ==> Base(s)[i] == s[i]
  {
    if s != [] {
      var init := s[..|s| - 1];
      BaseReplacesMarks(init);
      assert forall i :: 0 <= i < |init| ==> init[i] == s[i];
    }
  }

  /** Stripping tone marks a second time changes nothing. */
  lemma BaseIdempotent(s: string)
    ensures Base(Base(s)) == Base(s)
  {
    var b := Base(s);
    BaseReplacesMarks(s);
    BaseReplacesMarks(b);
    forall i | 0 <= i < |b|
      ensures Base(b)[i] == b[i]
    {
      ToneMarkRange(s[i]);
    }
  }

  /** The tone of the last tone-marked character, 0 when there is none. */
  function LastTone(s: string): (t: int)
    ensures 0 <= t <= 4
  {
    if s == [] then 0
    else if ToneMark(s[|s| - 1]).Marked? then
      ToneMarkRange(s[|s| - 1]);
      ToneMark(s[|s| - 1]).tone
    else
      LastTone(s[..|s| - 1])
  }

  /** LastTone is 0 exactly when no character is tone-marked, and otherwise
      the tone of a marked character with no marked one after it. */
  lemma {:induction false} LastToneIsLastMark(s: string)
    ensures LastTone(s) == 0 <==> forall i :: 0 <= i < |s| ==> ToneMark(s[i]).Unmarked?
    ensures LastTone(s) != 0 ==>
              exists i :: 0 <= i < |s| && ToneMark(s[i]).Marked? && ToneMark(s[i]).tone == LastTone(s) &&
                          forall j :: i < j < |s| ==> ToneMark(s[j]).Unmarked?
  {
    if s != [] {
      var n := |s| - 1;
      ToneMarkRange(s[n]);
      if ToneMark(s[n]).Unmarked? {
        var init := s[..n];
        LastToneIsLastMark(init);
        assert forall i :: 0 <= i < n ==> init[i] == s[i];
        if LastTone(s) != 0 {
          var i :| 0 <= i < n && ToneMark(init[i]).Marked? && ToneMark(init[i]).tone == LastTone(s) &&
                   forall j :: i < j < n ==> ToneMark(init[j]).Unmarked?;
          assert forall j :: i < j < |s| ==> ToneMark(s[j]).Unmarked?;
        }
      }
    }
  }

  /** A marked character with no marked character after it sets the tone. */
  lemma {:induction false} LastToneAt(s: string, m: nat)
    requires m < |s| && ToneMark(s[m]).Marked?
    requires forall i :: m < i < |s| ==> ToneMark(s[i]).Unmarked?
    ensures LastTone(s) == ToneMark(s[m]).tone
    decreases |s|
  {
    if m < |s| - 1 {
      var init := s[..|s| - 1];
      assert init[m] == s[m];
      LastToneAt(init, m);
    }
  }

  /** The first entry of cands at index k or later that is a prefix of b,
      or "" when none is. */
  function FirstPrefix(cands: seq<string>, k: nat, b: string): (ini: string)
    ensures ini <= b
    decreases |cands| - k
  {
    if k >= |cands| then ""
    else if cands[k] <= b then cands[k]
    else FirstPrefix(cands, k + 1, b)
  }

  /** When no entry is empty, FirstPrefix(cands, k, b) is "" exactly when no
      entry from index k on is a prefix of b, and otherwise the entry at the
      least such index. */
  lemma {:induction false} FirstPrefixIsFirstMatch(cands: seq<string>, k: nat, b: string)
    requires forall j :: 0 <= j < |cands| ==> cands[j] != ""
    ensures FirstPrefix(cands, k, b) == "" <==> forall j :: k <= j < |cands| ==> !(cands[j] <= b)
    ensures FirstPrefix(cands, k, b) != "" ==>
              exists j :: k <= j < |cands| && cands[j] == FirstPrefix(cands, k, b) && cands[j] <= b &&
                          forall i :: k <= i < j ==> !(cands[i] <= b)
    decreases |cands| - k
  {
    if k < |cands| {
      if cands[k] <= b {
        assert cands[k] == FirstPrefix(cands, k, b);
      } else {
        var rest := FirstPrefix(cands, k + 1, b);
        assert rest == FirstPrefix(cands, k, b);
        FirstPrefixIsFirstMatch(cands, k + 1, b);
        if rest != "" {
          var j :| k + 1 <= j < |cands| && cands[j] == rest && cands[j] <= b &&
                   forall i :: k + 1 <= i < j ==> !(cands[i] <= b);
          assert forall i :: k <= i < j ==> !(cands[i] <= b);
        }
      }
    }
  }

  /** When entry j is the first one from index k on that is a prefix of b
      (j == |cands| meaning there is none), the search returns it ("" for
      none). */
  lemma {:induction false} FirstPrefixAt(cands: seq<string>, k: nat, j: nat, b: string)
    requires k <= j <= |cands| && (j < |cands| ==> cands[j] <= b)
    requires forall i :: k <= i < j ==> !(cands[i] <= b)
    ensures FirstPrefix(cands, k, b) == if j < |cands| then cands[j] else ""
    decreases j - k
  {
    if k < j {
      FirstPrefixAt(cands, k + 1, j, b);
    }
  }

  /** The initial peeled off an unmarked syllable b is "" exactly when no
      listed initial is a prefix of b; otherwise it is a listed prefix that
      no earlier entry beats. */
  lemma InitialIsFirstMatch(b: string)
    ensures FirstPrefix(Initials, 0, b) == "" <==> forall j :: 0 <= j < |Initials| ==> !(Initials[j] <= b)
    ensures FirstPrefix(Initials, 0, b) != "" ==>
              exists j :: 0 <= j < |Initials| && Initials[j] == FirstPrefix(Initials, 0, b) && Initials[j] <= b &&
                          forall i :: 0 <= i < j ==> !(Initials[i] <= b)
  {
    assert forall j :: 0 <= j < |Initials| ==> Initials[j] != "";
    FirstPrefixIsFirstMatch(Initials, 0, b);
  }

  /** The first three initials have two letters, the others one. */
  lemma InitialLengths()
    ensures |Initials| == 23 && Initials[..3] == ["zh", "ch", "sh"]
    ensures forall j :: 0 <= j < |Initials| ==> |Initials[j]| == if j < 3 then 2 else 1
  {
  }

  /** The twenty one-letter initials all start with different letters. */
  lemma InitialHeadsDistinct()
    ensures forall i, k :: 3 <= i < k < |Initials| ==> Initials[i][0] != Initials[k][0]
  {
    InitialLengths();
  }

  /** A one-letter initial that is a prefix of b is the first match as soon
      as none of the two-letter initials is: no other one-letter initial
      starts with the same letter. */
  lemma OneLetterInitialFirst(b: string, j: nat)
    requires 3 <= j < |Initials| && Initials[j] <= b
    requires forall i :: 0 <= i < 3 ==> !(Initials[i] <= b)
    ensures forall i :: 0 <= i < j ==> !(Initials[i] <= b)
  {
    InitialLengths();
    InitialHeadsDistinct();
    forall i | 3 <= i < j
      ensures !(Initials[i] <= b)
    {
      assert Initials[j][0] == b[0];
    }
  }

  /** Because the two-letter initials are listed first, the chosen initial
      is the longest listed one that matches: "zh" wins over "z". */
  lemma InitialIsLongest(b: string)
    ensures forall j :: 0 <= j < |Initials| && Initials[j] <= b ==> |Initials[j]| <= |FirstPrefix(Initials, 0, b)|
  {
    InitialIsFirstMatch(b);
    InitialLengths();
    forall j | 0 <= j < |Initials| && Initials[j] <= b
      ensures |Initials[j]| <= |FirstPrefix(Initials, 0, b)|
    {
      var r :| 0 <= r < |Initials| && Initials[r] == FirstPrefix(Initials, 0, b) && Initials[r] <= b &&
               forall i :: 0 <= i < r ==> !(Initials[i] <= b);
      assert r <= j;
    }
  }

  /** The split of one syllable, as utils.split_syllable computes it. */
  function SyllableOf(s: string): (slot: Slot)
    ensures slot.initial + slot.final == Base(s)
    ensures 0 <= slot.tone <= 4
  {
    var b := Base(s);
    var ini := FirstPrefix(Initials, 0, b);
    Slot(ini, b[|ini|..], LastTone(s))
  }

  /** A syllable's split is read off character by character: b is the
      syllable with its marks replaced, the tone is that of the marked
      character at m with none after it, and the initial is listed entry j,
      the first one that is a prefix of b (none when j == |Initials|). */
  lemma SyllableOfMarked(s: string, b: string, m: nat, j: nat)
    requires m < |s| && ToneMark(s[m]).Marked?
    requires forall i :: m < i < |s| ==> ToneMark(s[i]).Unmarked?
    requires |b| == |s|
    requires forall i :: 0 <= i < |s| ==> b[i] == if ToneMark(s[i]).Marked? then ToneMark(s[i]).plain else s[i]
    requires j <= |Initials| && (j < |Initials| ==> Initials[j] <= b)
    requires forall i :: 0 <= i < j ==> !(Initials[i] <= b)
    ensures var ini := if j < |Initials| then Initials[j] else "";
            SyllableOf(s) == Slot(ini, b[|ini|..], ToneMark(s[m]).tone)
  {
    BaseReplacesMarks(s);
    assert Base(s) == b;
    LastToneAt(s, m);
    FirstPrefixAt(Initials, 0, j, b);
  }

  /** Four slots, each a well-formed split. */
  predicate ProfileShaped(p: seq<Slot>)
  {
    |p| == 4 && forall i :: 0 <= i < 4 ==> 0 <= p[i].tone <= 4
  }

  /** The first loop of utils.split_syllable: strip the tone marks,
      remembering the tone of the last marked vowel. */
  method StripTones(syllable: string) returns (base: string, tone: int)
    ensures base == Base(syllable) && tone == LastTone(syllable)
  {
    tone := 0;
    base := "";
    for i := 0 to |syllable|
      invariant base == Base(syllable[..i])
      invariant tone == LastTone(syllable[..i])
    {
      var ch := syllable[i];
      assert syllable[..i + 1][..i] == syllable[..i];
      var mark := ToneMark(ch);
      if mark.Marked? {
        base := base + [mark.plain];
        tone := mark.tone;
      } else {
        base := base + [ch];
      }
    }
    assert syllable[..|syllable|] == syllable;
  }

  /** The second loop of utils.split_syllable: the first listed initial
      that is a prefix of the stripped syllable, or "". */
  method PeelInitial(base: string) returns (initial: string)
    ensures initial == FirstPrefix(Initials, 0, base)
  {
    initial := "";
    for k := 0 to |Initials|
      invariant initial == ""
      invariant FirstPrefix(Initials, k, base) == FirstPrefix(Initials, 0, base)
    {
      if Initials[k] <= base {
        initial := Initials[k];
        break;
      }
    }
  }

  /** utils.split_syllable: strip the tone marks while remembering the last
      tone, then peel off the first matching initial. */
  method SplitSyllable(syllable: string) returns (slot: Slot)
    ensures slot == SyllableOf(syllable)
  {
    var base, tone := StripTones(syllable);
    // The code's `if tone == 0: tone = 0` (utils.py) changes nothing.
    var initial := PeelInitial(base);
    slot := Slot(initial, base[|initial|..], tone);
  }

  /** One split per syllable, in order. */
  function SplitEach(syllables: seq<string>): (slots: seq<Slot>)
    ensures |slots| == |syllables|
  {
    if syllables == [] then []
    else SplitEach(syllables[..|syllables| - 1]) + [SyllableOf(syllables[|syllables| - 1])]
  }

  /** A profile cut or padded with EmptySlot to exactly four slots. */
  function Pad(p: seq<Slot>): (q: seq<Slot>)
    ensures |q| == 4
    decreases 4 - |p|
  {
    if |p| >= 4 then p[..4] else Pad(p + [EmptySlot])
  }

  /** SplitEach splits syllable j into slot j. */
  lemma {:induction false} SplitEachSlot(syllables: seq<string>, j: nat)
    requires j < |syllables|
    ensures SplitEach(syllables)[j] == SyllableOf(syllables[j])
    decreases |syllables|
  {
    var n := |syllables| - 1;
    if j < n {
      var init := syllables[..n];
      SplitEachSlot(init, j);
      assert init[j] == syllables[j];
    }
  }

  /** Pad keeps the first four slots of p and fills the rest with EmptySlot. */
  lemma {:induction false} PadSlots(p: seq<Slot>)
    ensures forall j :: 0 <= j < 4 && j < |p| ==> Pad(p)[j] == p[j]
    ensures forall j :: |p| <= j < 4 ==> Pad(p)[j] == EmptySlot
    decreases 4 - |p|
  {
    if |p| < 4 {
      PadSlots(p + [EmptySlot]);
    }
  }

  /** The profile of a word: slot j is the split of syllable j for the
      first four syllables, EmptySlot after the last one, and every tone
      lies in 0..4. */
  lemma ProfileSlots(syllables: seq<string>)
    ensures forall j :: 0 <= j < 4 && j < |syllables| ==> Pad(SplitEach(syllables))[j] == SyllableOf(syllables[j])
    ensures forall j :: |syllables| <= j < 4 ==> Pad(SplitEach(syllables))[j] == EmptySlot
    ensures ProfileShaped(Pad(SplitEach(syllables)))
  {
    var p := Pad(SplitEach(syllables));
    forall j | 0 <= j < |syllables|
      ensures SplitEach(syllables)[j] == SyllableOf(syllables[j])
    {
      SplitEachSlot(syllables, j);
    }
    PadSlots(SplitEach(syllables));
    forall j | 0 <= j < 4
      ensures 0 <= p[j].tone <= 4
    {
      if j < |syllables| {
        var slot := SyllableOf(syllables[j]);
        assert p[j] == slot;
      }
    }
  }

  /** A four-syllable word's profile is the four splits, in order. */
  lemma ProfileOfFour(syllables: seq<string>, p: seq<Slot>)
    requires |syllables| == 4 && |p| == 4
    requires forall i :: 0 <= i < 4 ==> SyllableOf(syllables[i]) == p[i]
    ensures Pad(SplitEach(syllables)) == p
  {
    ProfileSlots(syllables);
  }

  /** utils.split_pinyin_word on an already split list of syllables: one
      slot per syllable, padded with EmptySlot or cut to exactly four. */
  method SplitPinyinWord(syllables: seq<string>) returns (slots: seq<Slot>)
    ensures slots == Pad(SplitEach(syllables))
  {
    var result: seq<Slot> := [];
    for i := 0 to |syllables|
      invariant result == SplitEach(syllables[..i])
    {
      var s := SplitSyllable(syllables[i]);
      assert syllables[..i + 1][..i] == syllables[..i];
      result := result + [s];
    }
    assert syllables[..|syllables|] == syllables;
    slots := PadProfile(result);
  }

  /** The padding loop of utils.split_pinyin_word: append EmptySlot until
      there are four slots, then keep the first four. */
  method PadProfile(p: seq<Slot>) returns (q: seq<Slot>)
    ensures q == Pad(p)
  {
    var result := p;
    while |result| < 4
      invariant Pad(result) == Pad(p)
      decreases 4 - |result|
    {
      result := result + [EmptySlot];
    }
    q := result[..4];
  }
}
