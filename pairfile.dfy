/**
 * The loader of the paraphrase corpus. Each line of a corpus file is a
 * tab-separated record whose last two fields are the two sentences of a
 * pair; the loader turns every line into those two sentences, last field
 * first, and then drops the first two sentences, which come from the
 * header line. The file's lines are a parameter: reading the file is not
 * part of this model.
 */
module PairFile {
  import opened Outcomes
  import Tokenizer
  import opened Sentences

  /** The message of `subList(2, 0)` on the empty list a file without lines leaves. */
  const SubListMessage: string := "fromIndex(2) > toIndex(0)"

  /** The non-empty tab-separated fields of a line. */
  function Fields(line: string): seq<string>
  {
    Tokenizer.Words(line, '\t')
  }

  /**
   * What a line makes the loader throw: a blank line fails in the tokenizer,
   * and a line with fewer than two fields fails when the loader reaches for
   * the last or the second-to-last one.
   */
  function LineError(line: string): Option<Exception>
  {
    if line == [] then Some(IllegalArgument(Tokenizer.BlankLineMessage))
    else if |Fields(line)| < 2 then Some(IndexOutOfBounds)
    else None
  }

  /** The two sentences a well-formed line adds: its last field, then the field before it. */
  function LinePair(line: string): (r: seq<Sentence>)
    requires LineError(line).None?
    ensures |r| == 2
  {
    var f := Fields(line);
    [SentenceOf(f[|f| - 1]), SentenceOf(f[|f| - 2])]
  }

  /** The error of the first line of `lines` that has one. */
  function FirstError(lines: seq<string>): Option<Exception>
  {
    if lines == [] then None
    else
      var e := FirstError(lines[..|lines| - 1]);
      if e.Some? then e else LineError(lines[|lines| - 1])
  }

  /** The sentences of well-formed lines, two per line, in file order. */
  function AllPairs(lines: seq<string>): seq<Sentence>
    requires FirstError(lines).None?
  {
    if lines == [] then []
    else AllPairs(lines[..|lines| - 1]) + LinePair(lines[|lines| - 1])
  }

  /**
   * The body of the loader's per-line consumer: tokenizes the line on tabs
   * and appends the sentence of its last field, then that of the field
   * before it, to `data`; a blank line or one with too few fields throws.
   */
  method AddLine(line: string, data: seq<Sentence>) returns (r: Result<seq<Sentence>>)
    ensures LineError(line).Some? ==> r == Failure(LineError(line).value)
    ensures LineError(line).None? ==> r == Success(data + LinePair(line))
  {
    var s := Tokenizer.Tokenize(line, '\t');
    if s.Failure? {
      assert LineError(line) == Some(s.error);
      return Failure(s.error);
    }
    var fields := s.value;
    assert fields == Fields(line);
    r := AddFields(fields, data);
    if |fields| >= 2 {
      assert LinePair(line) == [SentenceOf(fields[|fields| - 1]), SentenceOf(fields[|fields| - 2])];
    }
  }

  /**
   * The consumer after tokenizing: `s.get(s.size() - 1)` and then
   * `s.get(s.size() - 2)` become sentences appended to `data`; a missing
   * field is an index out of bounds.
   */
  method AddFields(fields: seq<string>, data: seq<Sentence>) returns (r: Result<seq<Sentence>>)
    requires forall t :: t in fields ==> t != []
    ensures |fields| < 2 ==> r == Failure(IndexOutOfBounds)
    ensures |fields| >= 2 ==>
              r == Success(data + [SentenceOf(fields[|fields| - 1]), SentenceOf(fields[|fields| - 2])])
  {
    if |fields| < 1 {
      return Failure(IndexOutOfBounds);
    }
    assert fields[|fields| - 1] in fields;
    var last := NewSentence(fields[|fields| - 1]);
    var added := data + [last.value];
    if |fields| < 2 {
      return Failure(IndexOutOfBounds);
    }
    assert fields[|fields| - 2] in fields;
    var previous := NewSentence(fields[|fields| - 2]);
    added := added + [previous.value];
    assert added == data + [last.value, previous.value];
    return Success(added);
  }

  /**
   * `loadData(path)` over the lines of the file: the first failing line
   * throws its error; a file without lines throws from `subList`; otherwise
   * the result is every line's pair but the first line's.
   */
  method LoadData(lines: seq<string>) returns (r: Result<seq<Sentence>>)
    ensures FirstError(lines).Some? ==> r == Failure(FirstError(lines).value)
    ensures FirstError(lines).None? && lines == [] ==> r == Failure(IllegalArgument(SubListMessage))
    ensures FirstError(lines).None? && lines != [] ==> r == Success(AllPairs(lines)[2..])
  {
    var data: seq<Sentence> := [];
    for i := 0 to |lines|
      invariant FirstError(lines[..i]).None?
      invariant data == AllPairs(lines[..i])
    {
      PairsStep(lines, i);
      var added := AddLine(lines[i], data);
      if added.Failure? {
        FirstErrorPrefix(lines, i + 1);
        return Failure(added.error);
      }
      data := added.value;
    }
    assert lines[..|lines|] == lines;
    if |data| < 2 {
      LoadedLength(lines);
      return Failure(IllegalArgument(SubListMessage));
    }
    return Success(data[2..]);
  }

  /** Appending a line to lines without an error adds that line's error, or its pair. */
  lemma PairsStep(lines: seq<string>, i: nat)
    requires i < |lines| && FirstError(lines[..i]).None?
    ensures FirstError(lines[..i + 1]) == LineError(lines[i])
    ensures LineError(lines[i]).None? ==> AllPairs(lines[..i + 1]) == AllPairs(lines[..i]) + LinePair(lines[i])
  {
    assert lines[..i + 1][..i] == lines[..i] && lines[..i + 1][i] == lines[i];
  }

  /** An error in a prefix of the lines is the error of all of them. */
  lemma {:induction false} FirstErrorPrefix(lines: seq<string>, j: nat)
    requires j <= |lines| && FirstError(lines[..j]).Some?
    ensures FirstError(lines) == FirstError(lines[..j])
    decreases |lines| - j
  {
    if j < |lines| {
      var init := lines[..|lines| - 1];
      assert init[..j] == lines[..j];
      FirstErrorPrefix(init, j);
    } else {
      assert lines[..j] == lines;
    }
  }

  /** The loader fails on some line exactly when one of the lines is blank or has fewer than two fields. */
  lemma FirstErrorNone(lines: seq<string>)
    ensures FirstError(lines).None? <==> forall i :: 0 <= i < |lines| ==> LineError(lines[i]).None?
  {
    if FirstError(lines).None? {
      forall i | 0 <= i < |lines| ensures LineError(lines[i]).None? {
        NoErrorAt(lines, i);
      }
    } else {
      var i := FailingLine(lines);
    }
  }

  /** Without a first error, no line has one. */
  lemma {:induction false} NoErrorAt(lines: seq<string>, i: nat)
    requires FirstError(lines).None? && i < |lines|
    ensures LineError(lines[i]).None?
  {
    var init := lines[..|lines| - 1];
    if i < |init| {
      NoErrorAt(init, i);
      assert init[i] == lines[i];
    }
  }

  /** A first error comes from some line. */
  lemma {:induction false} FailingLine(lines: seq<string>) returns (i: nat)
    requires FirstError(lines).Some?
    ensures i < |lines| && LineError(lines[i]).Some?
  {
    var init := lines[..|lines| - 1];
    if FirstError(init).Some? {
      i := FailingLine(init);
      assert init[i] == lines[i];
    } else {
      i := |lines| - 1;
    }
  }

  /** Every well-formed line contributes exactly two sentences. */
  lemma {:induction false} LoadedLength(lines: seq<string>)
    requires FirstError(lines).None?
    ensures |AllPairs(lines)| == 2 * |lines|
  {
    if lines != [] {
      LoadedLength(lines[..|lines| - 1]);
    }
  }

  /** Line `i` contributes its pair at positions `2 * i` and `2 * i + 1`. */
  lemma {:induction false} LoadedPair(lines: seq<string>, i: nat)
    requires FirstError(lines).None? && i < |lines|
    ensures |AllPairs(lines)| == 2 * |lines|
    ensures LineError(lines[i]).None?
    ensures AllPairs(lines)[2 * i] == LinePair(lines[i])[0]
    ensures AllPairs(lines)[2 * i + 1] == LinePair(lines[i])[1]
  {
    var init, last := lines[..|lines| - 1], lines[|lines| - 1];
    var front := AllPairs(init);
    LoadedLength(init);
    assert AllPairs(lines) == front + LinePair(last);
    if i < |init| {
      LoadedPair(init, i);
      assert init[i] == lines[i];
      assert AllPairs(lines)[2 * i] == front[2 * i] && AllPairs(lines)[2 * i + 1] == front[2 * i + 1];
    } else {
      assert AllPairs(lines)[2 * i] == LinePair(last)[0] && AllPairs(lines)[2 * i + 1] == LinePair(last)[1];
    }
  }

  /**
   * What a successful load holds: two sentences for every line after the
   * first, last field first, each sentence a non-empty field without a tab.
   */
  lemma LoadedContents(lines: seq<string>, i: nat)
    requires FirstError(lines).None? && 1 <= i < |lines|
    ensures |AllPairs(lines)[2..]| == 2 * |lines| - 2 && |Fields(lines[i])| >= 2
    ensures AllPairs(lines)[2..][2 * i - 2] == SentenceOf(Fields(lines[i])[|Fields(lines[i])| - 1])
    ensures AllPairs(lines)[2..][2 * i - 1] == SentenceOf(Fields(lines[i])[|Fields(lines[i])| - 2])
    ensures var f := Fields(lines[i]);
      forall t :: t in f ==> t != [] && '\t' !in t
  {
    LoadedPair(lines, i);
    Tokenizer.WordsFacts(lines[i], '\t');
  }

  /** A non-blank line made only of tabs has no field to take: the loader reports an index out of bounds. */
  lemma OnlyTabs(line: string)
    requires line != [] && forall i :: 0 <= i < |line| ==> line[i] == '\t'
    ensures LineError(line) == Some(IndexOutOfBounds)
  {
    Tokenizer.WordsEmpty(line, '\t');
  }
}
