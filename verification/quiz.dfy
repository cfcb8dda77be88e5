/** The multiple-choice quiz (`src/components/Quiz.tsx`): building one
    question from the vocabulary list and keeping the score.

    `Math.random()` is replaced by numbers the caller supplies; each number
    is reduced into the range the component asks for, as
    `Math.floor(Math.random() * n)` lands in `[0, n)`. The rejection loop
    that collects wrong answers may need any number of draws, so it is
    given a finite list of them: running out of draws stands for the
    component's loop still running. */
module Quiz {
  import opened Common
  import opened WordService

  /** The number of options shown, one of them correct. */
  const OptionCount := 4

  /** A question: the entry asked about and the options in display order. */
  datatype Question = Question(word: Word, options: seq<string>)

  /** The random numbers one question consumes: the question pick, the
      draws of the rejection loop, and the three Fisher-Yates swap picks
      (for positions 3, 2 and 1). */
  datatype Rolls = Rolls(pick: nat, draws: seq<nat>, swaps: (nat, nat, nat))

  /** The definitions in the list that differ from the correct one: the
      only strings the rejection loop accepts. */
  function OtherDefinitions(words: seq<Word>, correct: string): set<string> {
    set w | w in words && w.definition != correct :: w.definition
  }

  /** Wrong answers collected so far: pairwise distinct, and each the
      definition of a list entry, different from the correct one. */
  predicate ValidIncorrect(words: seq<Word>, correct: string, incorrect: seq<string>) {
    Distinct(incorrect) &&
    forall k :: 0 <= k < |incorrect| ==> incorrect[k] in OtherDefinitions(words, correct)
  }

  /** Where the rejection loop stands when it stops: it collected three
      wrong answers, or the draws ran out first. */
  datatype Draw = Drawn(incorrect: seq<string>) | Exhausted(incorrect: seq<string>)

  /** The rejection loop: while fewer than three wrong answers are
      collected, take the definition of a random entry and keep it when it
      differs from the correct one and from those already kept. */
  function DrawIncorrect(words: seq<Word>, correct: string, chosen: seq<string>,
                         draws: seq<nat>): (r: Draw)
    requires |words| > 0
    requires |chosen| <= 3 && ValidIncorrect(words, correct, chosen)
    ensures chosen <= r.incorrect
    ensures ValidIncorrect(words, correct, r.incorrect)
    ensures |r.incorrect| <= 3
    ensures r.Drawn? <==> |r.incorrect| == 3
    decreases |draws|
  {
    if |chosen| == 3 then Drawn(chosen)
    else if |draws| == 0 then Exhausted(chosen)
    else
      var w := words[draws[0] % |words|];
      var option := w.definition;
      if option != correct && option !in chosen then
        assert w in words;
        DrawIncorrect(words, correct, chosen + [option], draws[1..])
      else
        DrawIncorrect(words, correct, chosen, draws[1..])
  }

  /** The wrong answers a list of draws can offer: the definitions of the
      drawn entries that differ from the correct one. */
  function DrawnOthers(words: seq<Word>, correct: string, draws: seq<nat>): set<string>
    requires |words| > 0
  {
    set k | 0 <= k < |draws| && words[draws[k] % |words|].definition != correct ::
      words[draws[k] % |words|].definition
  }

  /** The offers of a list of draws are those of its first draw and those
      of the rest. */
  lemma DrawnOthersSplit(words: seq<Word>, correct: string, draws: seq<nat>)
    requires |words| > 0 && |draws| > 0
    ensures var option := words[draws[0] % |words|].definition;
            DrawnOthers(words, correct, draws) ==
              (if option != correct then {option} else {}) + DrawnOthers(words, correct, draws[1..])
  {
    var rest := draws[1..];
    forall x | x in DrawnOthers(words, correct, rest)
      ensures x in DrawnOthers(words, correct, draws)
    {
      var k :| 0 <= k < |rest| && words[rest[k] % |words|].definition != correct &&
               x == words[rest[k] % |words|].definition;
      assert rest[k] == draws[k + 1];
    }
    forall x | x in DrawnOthers(words, correct, draws)
      ensures x == words[draws[0] % |words|].definition || x in DrawnOthers(words, correct, rest)
    {
      var k :| 0 <= k < |draws| && words[draws[k] % |words|].definition != correct &&
               x == words[draws[k] % |words|].definition;
      if k > 0 {
        assert draws[k] == rest[k - 1];
      }
    }
  }

  /** Every wrong answer the loop keeps was already chosen or offered by a
      draw; and when the draws run out, the wrong answers are exactly the
      ones chosen before plus every offer the draws made. */
  lemma {:induction false} DrawIncorrectUsesDraws(words: seq<Word>, correct: string,
                                                 chosen: seq<string>, draws: seq<nat>)
    requires |words| > 0
    requires |chosen| <= 3 && ValidIncorrect(words, correct, chosen)
    ensures var r := DrawIncorrect(words, correct, chosen, draws);
            forall x :: x in r.incorrect ==> x in chosen || x in DrawnOthers(words, correct, draws)
    ensures var r := DrawIncorrect(words, correct, chosen, draws);
            r.Exhausted? ==>
              (set x | x in r.incorrect) == (set x | x in chosen) + DrawnOthers(words, correct, draws)
    decreases |draws|
  {
    if |chosen| == 3 {
    } else if |draws| == 0 {
      assert DrawnOthers(words, correct, draws) == {};
    } else {
      var w := words[draws[0] % |words|];
      var option := w.definition;
      DrawnOthersSplit(words, correct, draws);
      if option != correct && option !in chosen {
        assert w in words;
        DrawIncorrectUsesDraws(words, correct, chosen + [option], draws[1..]);
        assert (set x | x in chosen + [option]) == (set x | x in chosen) + {option};
      } else {
        DrawIncorrectUsesDraws(words, correct, chosen, draws[1..]);
      }
    }
  }

  /** Three distinct strings in a set make it hold at least three. */
  lemma ThreeDistinctInSet(s: seq<string>, pool: set<string>)
    requires |s| == 3 && Distinct(s)
    requires forall k :: 0 <= k < |s| ==> s[k] in pool
    ensures |pool| >= 3
  {
    var three := {s[0], s[1], s[2]};
    assert |three| == 3;
    SubsetCardinality(three, pool);
  }

  /** The loop can stop only when the list holds at least three distinct
      definitions other than the correct one: with fewer, no sequence of
      draws, however long, ends it. */
  lemma {:induction false} DrawNeverEndsWithoutThreeOthers(words: seq<Word>, correct: string,
                                                          draws: seq<nat>)
    requires |words| > 0
    requires |OtherDefinitions(words, correct)| < 3
    ensures DrawIncorrect(words, correct, [], draws).Exhausted?
  {
    var r := DrawIncorrect(words, correct, [], draws);
    if r.Drawn? {
      ThreeDistinctInSet(r.incorrect, OtherDefinitions(words, correct));
    }
  }

  /** Conversely, with three distinct other definitions some draws end the
      loop. */
  lemma DrawCanEndWithThreeOthers(words: seq<Word>, correct: string)
    requires |words| > 0
    requires |OtherDefinitions(words, correct)| >= 3
    ensures exists draws :: DrawIncorrect(words, correct, [], draws).Drawn?
  {
    var pool := OtherDefinitions(words, correct);
    var a :| a in pool;
    assert |pool - {a}| >= 2;
    var b :| b in pool - {a};
    assert |pool - {a} - {b}| >= 1;
    var c :| c in pool - {a} - {b};
    var ia := IndexOfDefinition(words, correct, a);
    var ib := IndexOfDefinition(words, correct, b);
    var ic := IndexOfDefinition(words, correct, c);
    var draws := [ia, ib, ic];
    assert ValidIncorrect(words, correct, [a]);
    assert ValidIncorrect(words, correct, [a, b]) by {
      assert [a, b][0] == a && [a, b][1] == b;
    }
    assert ValidIncorrect(words, correct, [a, b, c]) by {
      assert [a, b, c][0] == a && [a, b, c][1] == b && [a, b, c][2] == c;
    }
    assert DrawIncorrect(words, correct, [a, b, c], []) == Drawn([a, b, c]);
    assert DrawIncorrect(words, correct, [a, b], [ic]) == Drawn([a, b, c]) by {
      assert [ic][1..] == [];
      assert c !in [a, b];
      assert [a, b] + [c] == [a, b, c];
    }
    assert DrawIncorrect(words, correct, [a], [ib, ic]) == Drawn([a, b, c]) by {
      assert [ib, ic][1..] == [ic];
      assert b !in [a];
      assert [a] + [b] == [a, b];
    }
    assert DrawIncorrect(words, correct, [], draws) == Drawn([a, b, c]) by {
      assert draws[1..] == [ib, ic];
      assert [] + [a] == [a];
    }
  }

  /** The position of an entry whose definition is `d`. */
  lemma IndexOfDefinition(words: seq<Word>, correct: string, d: string) returns (i: nat)
    requires d in OtherDefinitions(words, correct)
    ensures i < |words| && words[i].definition == d && i % |words| == i
  {
    var w :| w in words && w.definition != correct && w.definition == d;
    var k :| 0 <= k < |words| && words[k] == w;
    i := k;
  }

  /** Exchanges the elements at positions `i` and `j`. */
  function Swap(s: seq<string>, i: nat, j: nat): (r: seq<string>)
    requires i < |s| && j < |s|
    ensures |r| == |s| && multiset(r) == multiset(s)
    ensures r[i] == s[j] && r[j] == s[i]
    ensures forall k :: 0 <= k < |s| && k != i && k != j ==> r[k] == s[k]
  {
    s[i := s[j]][j := s[i]]
  }

  /** The Fisher-Yates loop from position `i` down to 1: swap position `i`
      with a random position in `[0, i]`. */
  function FisherYates(s: seq<string>, i: nat, swaps: seq<nat>): (r: seq<string>)
    requires i < |s| && i <= |swaps|
    ensures |r| == |s| && multiset(r) == multiset(s)
    decreases i
  {
    if i == 0 then s
    else FisherYates(Swap(s, i, swaps[0] % (i + 1)), i - 1, swaps[1..])
  }

  /** A well-formed question about an entry of `words`: four distinct
      options, the entry's definition exactly once among them, and every
      other option a different definition from the list. */
  predicate WellFormed(words: seq<Word>, q: Question) {
    && q.word in words
    && |q.options| == OptionCount
    && Distinct(q.options)
    && multiset(q.options)[q.word.definition] == 1
    && forall k :: 0 <= k < |q.options| && q.options[k] != q.word.definition ==>
         q.options[k] in OtherDefinitions(words, q.word.definition)
  }

  /** What asking for a question gives: no question below four entries,
      a loop that has not ended within the supplied draws, or a question. */
  datatype Generated = NotEnoughWords | DrawsExhausted | Asked(question: Question)

  /** `generateNewQuestion`: pick the entry asked about, collect three
      wrong answers, then shuffle the correct answer in among them. */
  function GenerateNewQuestion(words: seq<Word>, rolls: Rolls): (r: Generated)
    requires |words| >= OptionCount
    ensures !r.NotEnoughWords?
    ensures var correct := words[rolls.pick % |words|].definition;
            r.Asked? <==> DrawIncorrect(words, correct, [], rolls.draws).Drawn?
    ensures r.Asked? ==> r.question.word == words[rolls.pick % |words|]
    ensures r.Asked? ==>
      var correct := words[rolls.pick % |words|].definition;
      multiset(r.question.options) ==
        multiset([correct] + DrawIncorrect(words, correct, [], rolls.draws).incorrect)
    ensures r.Asked? ==> WellFormed(words, r.question)
  {
    var word := words[rolls.pick % |words|];
    var correct := word.definition;
    match DrawIncorrect(words, correct, [], rolls.draws)
    case Exhausted(_) => DrawsExhausted
    case Drawn(incorrect) =>
      var all := [correct] + incorrect;
      var options := FisherYates(all, 3, [rolls.swaps.0, rolls.swaps.1, rolls.swaps.2]);
      assert word in words;
      ShuffledOptionsWellFormed(words, word, incorrect, options);
      Asked(Question(word, options))
  }

  /** Any rearrangement of the correct definition and three valid wrong
      answers is a well-formed question. */
  lemma ShuffledOptionsWellFormed(words: seq<Word>, word: Word, incorrect: seq<string>,
                                  options: seq<string>)
    requires word in words
    requires |incorrect| == 3 && ValidIncorrect(words, word.definition, incorrect)
    requires multiset(options) == multiset([word.definition] + incorrect)
    ensures WellFormed(words, Question(word, options))
  {
    var correct := word.definition;
    var all := [correct] + incorrect;
    assert Distinct(all) by {
      forall i, j | 0 <= i < j < |all| ensures all[i] != all[j] {
        assert all[j] == incorrect[j - 1];
        if i > 0 {
          assert all[i] == incorrect[i - 1];
        }
      }
    }
    assert |options| == 4 by {
      assert |multiset(options)| == |multiset(all)|;
    }
    PermutationKeepsDistinct(options, all);
    DistinctByCounts(options);
    assert correct in multiset(options) by {
      assert correct in multiset(all);
    }
    forall k | 0 <= k < |options| && options[k] != correct
      ensures options[k] in OtherDefinitions(words, correct)
    {
      assert options[k] in multiset(all);
      assert options[k] in all;
      var m :| 0 <= m < |all| && all[m] == options[k];
      assert all[m] == incorrect[m - 1];
    }
  }

  /** `generateQuestion`: nothing below four entries; otherwise a new
      question about the picked entry, asked exactly when the wrong-answer
      loop ends within the supplied draws. */
  function GenerateQuestion(words: seq<Word>, rolls: Rolls): (r: Generated)
    ensures r.NotEnoughWords? <==> |words| < OptionCount
    ensures |words| >= OptionCount ==>
      var correct := words[rolls.pick % |words|].definition;
      (r.Asked? <==> DrawIncorrect(words, correct, [], rolls.draws).Drawn?)
    ensures r.Asked? ==> r.question.word == words[rolls.pick % |words|]
    ensures r.Asked? ==>
      var correct := words[rolls.pick % |words|].definition;
      multiset(r.question.options) ==
        multiset([correct] + DrawIncorrect(words, correct, [], rolls.draws).incorrect)
    ensures r.Asked? ==> WellFormed(words, r.question)
  {
    if |words| < OptionCount then NotEnoughWords else GenerateNewQuestion(words, rolls)
  }

  /** With at least four entries whose definitions collapse to fewer than
      four distinct strings, no question is ever produced, whatever the
      random numbers. */
  lemma NoQuestionWithoutFourDistinctDefinitions(words: seq<Word>, rolls: Rolls)
    requires |words| >= OptionCount
    requires |set w | w in words :: w.definition| < OptionCount
    ensures GenerateQuestion(words, rolls) == DrawsExhausted
  {
    var correct := words[rolls.pick % |words|].definition;
    var all := set w | w in words :: w.definition;
    assert OtherDefinitions(words, correct) <= all - {correct};
    assert words[rolls.pick % |words|] in words;
    assert correct in all;
    assert |all - {correct}| == |all| - 1;
    SubsetCardinality(OtherDefinitions(words, correct), all - {correct});
    DrawNeverEndsWithoutThreeOthers(words, correct, rolls.draws);
  }

  // ---------------------------------------------------------------------
  // Score keeping

  datatype Verdict = Correct | Incorrect

  /** The component's state: the question shown, its options, the option
      chosen, the verdict once answered, and the running score. */
  datatype Session = Session(current: Option<Word>, options: seq<string>, selected: string,
                             result: Option<Verdict>, score: nat, total: nat)

  /** The state when the component is first shown. */
  const Start := Session(None, [], "", None, 0, 0)

  /** `handleOptionSelect`: ignored once the question is answered;
      otherwise records the choice, counts one more answered question, and
      one more correct answer when the option is the current definition. */
  function SelectOption(s: Session, option: string): (r: Session)
    ensures s.result.Some? ==> r == s
    ensures s.result.None? ==> r.result.Some? && r.selected == option && r.total == s.total + 1
    ensures s.result.None? ==>
      (r.result == Some(Correct) <==> s.current.Some? && option == s.current.value.definition)
    ensures s.result.None? ==>
      r.score == if r.result == Some(Correct) then s.score + 1 else s.score
    ensures r.current == s.current && r.options == s.options
  {
    if s.result.Some? then s
    else if s.current.Some? && option == s.current.value.definition then
      s.(selected := option, result := Some(Correct), score := s.score + 1, total := s.total + 1)
    else
      s.(selected := option, result := Some(Incorrect), total := s.total + 1)
  }

  /** `handleNextQuestion` (and the effect run when the list changes):
      below four entries nothing changes; otherwise the new question about
      the picked entry is shown with no option selected and no verdict,
      keeping the score. `None` stands for a rejection loop that has not
      ended within the supplied draws. */
  function NextQuestion(s: Session, words: seq<Word>, rolls: Rolls): (r: Option<Session>)
    ensures |words| < OptionCount ==> r == Some(s)
    ensures |words| >= OptionCount ==>
      var correct := words[rolls.pick % |words|].definition;
      (r.Some? <==> DrawIncorrect(words, correct, [], rolls.draws).Drawn?)
    ensures r.Some? && |words| >= OptionCount ==>
      r.value.current == Some(words[rolls.pick % |words|])
    ensures r.Some? && |words| >= OptionCount ==>
      GenerateQuestion(words, rolls).Asked? &&
      r.value.options == GenerateQuestion(words, rolls).question.options
    ensures r.Some? ==> r.value.score == s.score && r.value.total == s.total
    ensures r.Some? && |words| >= OptionCount ==>
      && r.value.selected == ""
      && r.value.result.None?
      && r.value.current.Some?
      && WellFormed(words, Question(r.value.current.value, r.value.options))
  {
    match GenerateQuestion(words, rolls)
    case NotEnoughWords => Some(s)
    case DrawsExhausted => None
    case Asked(q) =>
      Some(s.(current := Some(q.word), options := q.options, selected := "", result := None))
  }

  /** One user action: ask for the next question, or pick an option. */
  datatype Event = Next(rolls: Rolls) | Choose(option: string)

  /** Plays a sequence of actions against a fixed list, stopping if a
      question cannot be generated. */
  function Run(s: Session, words: seq<Word>, events: seq<Event>): Session
    decreases |events|
  {
    if |events| == 0 then s
    else match events[0]
      case Choose(option) => Run(SelectOption(s, option), words, events[1..])
      case Next(rolls) =>
        match NextQuestion(s, words, rolls)
        case None => s
        case Some(s') => Run(s', words, events[1..])
  }

  /** The number of requests for a new question among `events`. */
  function NextCount(events: seq<Event>): nat
    decreases |events|
  {
    if |events| == 0 then 0 else (if events[0].Next? then 1 else 0) + NextCount(events[1..])
  }

  /** 1 while the shown question still awaits an answer. */
  function Open(s: Session): nat {
    if s.result.None? then 1 else 0
  }

  /** The score never exceeds the number of answered questions, and each
      question is answered at most once: answers are bounded by the
      questions shown (plus the one open at the start). */
  lemma {:induction false} RunScoreBounds(s: Session, words: seq<Word>, events: seq<Event>)
    requires s.score <= s.total
    ensures Run(s, words, events).score <= Run(s, words, events).total
    ensures Run(s, words, events).total + Open(Run(s, words, events)) <=
            s.total + Open(s) + NextCount(events)
    decreases |events|
  {
    if |events| > 0 {
      match events[0]
      case Choose(option) =>
        RunScoreBounds(SelectOption(s, option), words, events[1..]);
      case Next(rolls) =>
        match NextQuestion(s, words, rolls)
        case None =>
        case Some(s') =>
          RunScoreBounds(s', words, events[1..]);
    }
  }

  /** From the start, the score is at most the number of answers, which is
      at most the number of questions asked plus one. */
  lemma RunFromStart(words: seq<Word>, events: seq<Event>)
    ensures Run(Start, words, events).score <= Run(Start, words, events).total
    ensures Run(Start, words, events).total <= 1 + NextCount(events)
  {
    RunScoreBounds(Start, words, events);
  }
}
