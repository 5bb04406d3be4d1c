/**
 * The test class's `tokenize(line, regex)`: split a line on a one-character
 * separator and keep the non-empty pieces, in order.
 */
module Tokenizer {
  import opened Outcomes

  /** The message of the exception thrown for a blank line. */
  const BlankLineMessage: string := "Line should not be blank!"

  /** The pieces of `s` between occurrences of `sep`, empty ones included:
      a string holding n separators has n + 1 pieces. */
  function Pieces(s: string, sep: char): (r: seq<string>)
    ensures |r| >= 1
    ensures forall p :: p in r ==> sep !in p
    decreases |s|
  {
    if s == [] then [[]]
    else
      var rest := Pieces(s[1..], sep);
      if s[0] == sep then [[]] + rest
      else [[s[0]] + rest[0]] + rest[1..]
  }

  /** Removes the empty strings at the end of `p`. */
  function DropTrailingEmpty(p: seq<string>): seq<string>
  {
    if p != [] && p[|p| - 1] == [] then DropTrailingEmpty(p[..|p| - 1]) else p
  }

  /** `String.split` with a regex that is one literal character and limit 0:
      a string without a separator is returned whole; otherwise the pieces,
      with the trailing empty ones removed. */
  function Split(s: string, sep: char): seq<string>
  {
    if sep !in s then [s] else DropTrailingEmpty(Pieces(s, sep))
  }

  /** The strings of `p` that are not empty, in their order. */
  function NonEmpty(p: seq<string>): seq<string>
  {
    if p == [] then []
    else (if p[0] == [] then [] else [p[0]]) + NonEmpty(p[1..])
  }

  /** The tokens `tokenize` returns for a non-blank line. */
  function Words(line: string, sep: char): seq<string>
  {
    NonEmpty(Split(line, sep))
  }

  /** The strings of `ts` written one after another. */
  function Concat(ts: seq<string>): string
  {
    if ts == [] then [] else ts[0] + Concat(ts[1..])
  }

  /** `s` with every occurrence of `sep` removed. */
  function Strip(s: string, sep: char): string
  {
    if s == [] then [] else (if s[0] == sep then [] else [s[0]]) + Strip(s[1..], sep)
  }

  /** The strings of `ts` with one `sep` between neighbours. */
  function Join(ts: seq<string>, sep: char): string
    requires |ts| >= 1
  {
    if |ts| == 1 then ts[0] else ts[0] + [sep] + Join(ts[1..], sep)
  }

  /**
   * `tokenize(line, regex)`, with the regex a single literal character:
   * a blank line is rejected with IllegalArgumentException; otherwise the
   * result of `line.split(regex)` is scanned and its non-empty pieces are
   * appended to the token list.
   */
  method Tokenize(line: string, sep: char) returns (r: Result<seq<string>>)
    ensures r.Failure? <==> line == []
    ensures r.Failure? ==> r.error == IllegalArgument(BlankLineMessage)
    ensures r.Success? ==> r.value == Words(line, sep)
    ensures r.Success? ==> forall t :: t in r.value ==> t != [] && sep !in t
    ensures r.Success? ==> Concat(r.value) == Strip(line, sep)
  {
    if line == [] {
      return Failure(IllegalArgument(BlankLineMessage));
    }
    var ss := Split(line, sep);
    var tokens: seq<string> := [];
    for i := 0 to |ss|
      invariant tokens == NonEmpty(ss[..i])
    {
      NonEmptyAppend(ss[..i], [ss[i]]);
      assert ss[..i + 1] == ss[..i] + [ss[i]];
      if ss[i] != [] {
        tokens := tokens + [ss[i]];
      }
    }
    assert ss[..|ss|] == ss;
    WordsFacts(line, sep);
    return Success(tokens);
  }

  /** What remains is a prefix ending in a non-empty string, and everything removed was empty. */
  lemma {:induction false} DropTrailingEmptyFacts(p: seq<string>)
    ensures DropTrailingEmpty(p) <= p
    ensures DropTrailingEmpty(p) == [] || DropTrailingEmpty(p)[|DropTrailingEmpty(p)| - 1] != []
    ensures forall i :: |DropTrailingEmpty(p)| <= i < |p| ==> p[i] == []
    decreases |p|
  {
    if p != [] && p[|p| - 1] == [] {
      var init := p[..|p| - 1];
      DropTrailingEmptyFacts(init);
      forall i | |DropTrailingEmpty(p)| <= i < |p| ensures p[i] == [] {
        if i < |init| {
          assert p[i] == init[i];
        }
      }
    }
  }

  /** The strings kept are strings of `p`, and none is empty. */
  lemma {:induction false} NonEmptyMembers(p: seq<string>)
    ensures forall t :: t in NonEmpty(p) ==> t != [] && t in p
  {
    if p != [] {
      NonEmptyMembers(p[1..]);
      assert forall t :: t in p[1..] ==> t in p;
    }
  }

  lemma {:induction false} NonEmptyAppend(a: seq<string>, b: seq<string>)
    ensures NonEmpty(a + b) == NonEmpty(a) + NonEmpty(b)
  {
    if a != [] {
      assert (a + b)[1..] == a[1..] + b;
      NonEmptyAppend(a[1..], b);
    } else {
      assert a + b == b;
    }
  }

  /** Dropping trailing empty pieces does not change the non-empty ones. */
  lemma {:induction false} NonEmptyDropTrailing(p: seq<string>)
    ensures NonEmpty(DropTrailingEmpty(p)) == NonEmpty(p)
    decreases |p|
  {
    if p != [] && p[|p| - 1] == [] {
      var init := p[..|p| - 1];
      NonEmptyDropTrailing(init);
      assert p == init + [[]];
      NonEmptyAppend(init, [[]]);
    }
  }

  /** Pieces of a string that starts with a separator-free prefix `a`. */
  lemma {:induction false} PiecesAfterFree(a: string, rest: string, sep: char)
    requires sep !in a
    ensures Pieces(a + rest, sep) == [a + Pieces(rest, sep)[0]] + Pieces(rest, sep)[1..]
  {
    if a != [] {
      assert (a + rest)[1..] == a[1..] + rest;
      assert a[0] in a && (a + rest)[0] == a[0];
      assert forall c :: c in a[1..] ==> c in a;
      PiecesAfterFree(a[1..], rest, sep);
      var p := Pieces(rest, sep);
      var q := Pieces(a[1..] + rest, sep);
      assert Pieces(a + rest, sep) == [[a[0]] + q[0]] + q[1..];
      assert [a[0]] + (a[1..] + p[0]) == a + p[0];
    } else {
      assert a + rest == rest;
      var p := Pieces(rest, sep);
      assert p == [p[0]] + p[1..];
      assert a + p[0] == p[0];
    }
  }

  /** The tokens are the non-empty pieces between separators. */
  lemma WordsAsPieces(line: string, sep: char)
    ensures Words(line, sep) == NonEmpty(Pieces(line, sep))
  {
    if sep !in line {
      PiecesAfterFree(line, [], sep);
      assert line + [] == line;
      assert Pieces(line, sep) == [line];
      assert Split(line, sep) == [line];
    } else {
      NonEmptyDropTrailing(Pieces(line, sep));
    }
  }

  lemma {:induction false} ConcatNonEmpty(p: seq<string>)
    ensures Concat(NonEmpty(p)) == Concat(p)
  {
    if p != [] {
      ConcatNonEmpty(p[1..]);
      ConcatAppend(if p[0] == [] then [] else [p[0]], NonEmpty(p[1..]));
    }
  }

  lemma {:induction false} ConcatAppend(a: seq<string>, b: seq<string>)
    ensures Concat(a + b) == Concat(a) + Concat(b)
  {
    if a != [] {
      assert (a + b)[1..] == a[1..] + b;
      ConcatAppend(a[1..], b);
    } else {
      assert a + b == b;
    }
  }

  /** Gluing the pieces back together gives the line without its separators. */
  lemma {:induction false} ConcatPieces(s: string, sep: char)
    ensures Concat(Pieces(s, sep)) == Strip(s, sep)
    decreases |s|
  {
    if s != [] {
      var rest := Pieces(s[1..], sep);
      ConcatPieces(s[1..], sep);
      if s[0] != sep {
        assert rest == [rest[0]] + rest[1..];
        assert Concat(rest) == rest[0] + Concat(rest[1..]);
      }
    }
  }

  /** No token is empty, none holds the separator, and together they are the
      line with its separators removed. */
  lemma WordsFacts(line: string, sep: char)
    ensures forall t :: t in Words(line, sep) ==> t != [] && sep !in t
    ensures Concat(Words(line, sep)) == Strip(line, sep)
  {
    WordsAsPieces(line, sep);
    NonEmptyMembers(Pieces(line, sep));
    ConcatNonEmpty(Pieces(line, sep));
    ConcatPieces(line, sep);
  }

  /** Splitting separator-free strings joined by the separator gives them back, empty ones included. */
  lemma {:induction false} PiecesJoin(ts: seq<string>, sep: char)
    requires |ts| >= 1
    requires forall t :: t in ts ==> sep !in t
    ensures Pieces(Join(ts, sep), sep) == ts
  {
    if |ts| == 1 {
      PiecesAfterFree(ts[0], [], sep);
      assert ts[0] + [] == ts[0];
    } else {
      var tail := Join(ts[1..], sep);
      assert forall t :: t in ts[1..] ==> t in ts;
      assert ts[0] in ts;
      PiecesJoin(ts[1..], sep);
      assert ts[0] + [sep] + tail == ts[0] + ([sep] + tail);
      PiecesAfterFree(ts[0], [sep] + tail, sep);
      assert ([sep] + tail)[1..] == tail;
      assert Pieces([sep] + tail, sep) == [[]] + Pieces(tail, sep);
      assert ts[0] + [] == ts[0];
      assert ts == [ts[0]] + ts[1..];
    }
  }

  lemma {:induction false} NonEmptyAllFull(ts: seq<string>)
    requires forall t :: t in ts ==> t != []
    ensures NonEmpty(ts) == ts
  {
    if ts != [] {
      assert forall t :: t in ts[1..] ==> t in ts;
      NonEmptyAllFull(ts[1..]);
      assert ts[0] in ts;
      assert ts == [ts[0]] + ts[1..];
    }
  }

  /** Round trip: tokenizing tokens joined by the separator gives the same tokens. */
  lemma WordsJoin(ts: seq<string>, sep: char)
    requires |ts| >= 1
    requires forall t :: t in ts ==> t != [] && sep !in t
    ensures Words(Join(ts, sep), sep) == ts
  {
    PiecesJoin(ts, sep);
    WordsAsPieces(Join(ts, sep), sep);
    NonEmptyAllFull(ts);
  }

  lemma {:induction false} StripEmpty(s: string, sep: char)
    ensures Strip(s, sep) == [] <==> forall i :: 0 <= i < |s| ==> s[i] == sep
  {
    if s != [] {
      StripEmpty(s[1..], sep);
      assert forall i :: 1 <= i < |s| ==> s[i] == s[1..][i - 1];
    }
  }

  /** A non-blank line yields no tokens exactly when it is made only of separators. */
  lemma WordsEmpty(line: string, sep: char)
    ensures Words(line, sep) == [] <==> forall i :: 0 <= i < |line| ==> line[i] == sep
  {
    WordsFacts(line, sep);
    StripEmpty(line, sep);
    var w := Words(line, sep);
    if w != [] {
      assert w[0] in w;
      assert Concat(w) == w[0] + Concat(w[1..]);
    }
  }
}
