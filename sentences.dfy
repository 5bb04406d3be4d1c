/** The test class's `Sentence`: a line of text together with its space-separated tokens. */
module Sentences {
  import opened Outcomes
  import Tokenizer

  datatype Sentence = Sentence(line: string, tokens: seq<string>)

  /** The sentence the constructor builds from a non-blank line. */
  function SentenceOf(line: string): Sentence
  {
    Sentence(line, Tokenizer.Words(line, ' '))
  }

  /**
   * `new Sentence(line)`: keeps the line and tokenizes it on single spaces,
   * so a blank line makes the constructor throw.
   */
  method NewSentence(line: string) returns (r: Result<Sentence>)
    ensures r.Failure? <==> line == []
    ensures r.Failure? ==> r.error == IllegalArgument(Tokenizer.BlankLineMessage)
    ensures r.Success? ==> r.value == SentenceOf(line)
    ensures r.Success? ==> r.value.line == line && Tokenizer.Concat(r.value.tokens) == Tokenizer.Strip(line, ' ')
  {
    var tokens := Tokenizer.Tokenize(line, ' ');
    if tokens.Failure? {
      return Failure(tokens.error);
    }
    return Success(Sentence(line, tokens.value));
  }
}
