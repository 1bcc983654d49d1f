/**
 * The recall action (code/RecallAction.js): the cleaned utterance and the
 * matcher's ranking decide which of four sentences is spoken. Cleaning,
 * loading the corpus and ranking are not part of this model; they are
 * passed in as functions.
 */
module RecallComposer {
  import opened Js

  /** An entry of the matcher's ranking: a memory's text and how many words of the input it matched. */
  datatype RankedMemory = RankedMemory(text: string, numWords: int)

  const NoMemoriesYet := "I do not have any memories yet, please give me something to remember first."

  /** The opening every reply about an existing memory shares. */
  function Echo(cleanedInput: string): string {
    "You asked me to recall " + cleanedInput
  }

  function NoMatchSentence(cleanedInput: string): string {
    Echo(cleanedInput) + ". I do not have a memory that contains anything like that."
  }

  /** The partial-match sentence, worded as the source words it ("closed thing"). */
  function ClosestSentence(cleanedInput: string, text: string): string {
    Echo(cleanedInput) + ". The closed thing I can remember is that you told me " + text + "."
  }

  function DirectSentence(cleanedInput: string, text: string): string {
    Echo(cleanedInput) + ". You told me " + text + "."
  }

  /** Whether the matcher found anything: `bestMemories && bestMemories.length > 0`. */
  predicate Found(bestMemories: Option<seq<RankedMemory>>) {
    bestMemories.Some? && |bestMemories.value| > 0
  }

  /**
   * The reply for a ranking. The input's word count, `cleanedInput.split(' ').length`, is one more
   * than its number of spaces, so the three non-empty cases split on the best entry's `numWords`:
   * zero, non-zero and at most the number of spaces, or more than that.
   */
  function Reply(cleanedInput: string, bestMemories: Option<seq<RankedMemory>>): (speech: string)
    ensures !Found(bestMemories) ==> speech == NoMemoriesYet
    ensures Found(bestMemories) ==> Echo(cleanedInput) <= speech
    ensures Found(bestMemories) && bestMemories.value[0].numWords == 0 ==>
      speech == NoMatchSentence(cleanedInput)
    ensures Found(bestMemories) && bestMemories.value[0].numWords != 0
            && bestMemories.value[0].numWords <= multiset(cleanedInput)[' '] ==>
      speech == ClosestSentence(cleanedInput, bestMemories.value[0].text)
    ensures Found(bestMemories) && bestMemories.value[0].numWords > multiset(cleanedInput)[' '] ==>
      speech == DirectSentence(cleanedInput, bestMemories.value[0].text)
  {
    if Found(bestMemories) then
      var best := bestMemories.value[0];
      var numWordsInInput := |Split(cleanedInput, ' ')|;
      if best.numWords == 0 then NoMatchSentence(cleanedInput)
      else if best.numWords < numWordsInInput then ClosestSentence(cleanedInput, best.text)
      else DirectSentence(cleanedInput, best.text)
    else
      NoMemoriesYet
  }

  /** An input without spaces (one word, or empty) with a positive match count is answered directly, never with the closest-thing sentence. */
  lemma OneWordInputNeverPartial(cleanedInput: string, bestMemories: Option<seq<RankedMemory>>)
    requires ' ' !in cleanedInput && Found(bestMemories) && bestMemories.value[0].numWords > 0
    ensures Reply(cleanedInput, bestMemories) == DirectSentence(cleanedInput, bestMemories.value[0].text)
  {
  }

  /**
   * `recallAction`: cleans the utterance, loads the user's memories, ranks them and composes
   * the reply for the cleaned input.
   */
  function RecallAction<U, C>(
    recallInput: string,
    userId: U,
    cleanString: string -> string,
    loadMemories: U -> C,
    findTextInMemories: (string, C) -> Option<seq<RankedMemory>>
  ): (speech: string)
    ensures var found := findTextInMemories(cleanString(recallInput), loadMemories(userId));
      && (!Found(found) ==> speech == NoMemoriesYet)
      && (Found(found) ==> Echo(cleanString(recallInput)) <= speech)
  {
    var cleanedInput := cleanString(recallInput);
    var memories := loadMemories(userId);
    var bestMemories := findTextInMemories(cleanedInput, memories);
    Reply(cleanedInput, bestMemories)
  }
}
