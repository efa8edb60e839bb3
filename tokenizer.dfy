/**
 * The whitespace tokenizer: `read_token` cuts one token (a value and the run
 * of separators after it) off the front of the input, and `tokenize` loops
 * over it.  Byte offsets of the source become character positions here.
 */
module Tokenizer {

  /** A token: its significant text and the separators that follow it. */
  datatype Token = Token(value: string, suffix: string)
  {
    /** `Token::is_empty`: the token carries no text at all; only `Token("", "")` is empty. */
    predicate IsEmpty()
      ensures IsEmpty() ==> this == Token([], [])
    {
      value == [] && suffix == []
    }
  }

  /** A tokenizer is configured by its set of separator characters. */
  datatype Tokenizer = Tokenizer(separators: set<char>)

  /** What `read_token` produces, or the panic of an inverted slice. */
  datatype ReadOutcome = Read(token: Token, remaining: string) | SlicePanic

  /** What the `tokenize` loop does within `fuel` iterations. */
  datatype TokenizeOutcome =
    | Finished(tokens: seq<Token>)   // the loop broke out and returned `tokens`
    | Panicked                        // `read_token` panicked
    | OutOfFuel(tokens: seq<Token>)   // still looping; `tokens` pushed so far

  /** `Tokenizer::default`: space, newline, carriage return and tab. */
  function Default(): (t: Tokenizer)
    ensures forall c :: c in t.separators <==> c == ' ' || c == '\n' || c == '\r' || c == '\t'
    ensures |t.separators| == 4
  {
    Tokenizer({' ', '\n', '\r', '\t'})
  }

  /** Position of the first separator in `s`, or `|s|` when there is none. */
  function FirstSeparator(seps: set<char>, s: string): (i: nat)
    ensures i <= |s|
    ensures forall k :: 0 <= k < i ==> s[k] !in seps
    ensures i < |s| ==> s[i] in seps
  {
    if s == [] || s[0] in seps then 0 else 1 + FirstSeparator(seps, s[1..])
  }

  /** Position of the first non-separator at or after `from`, or `|s|`. */
  function SeparatorRunEnd(seps: set<char>, s: string, from: nat): (j: nat)
    requires from <= |s|
    ensures from <= j <= |s|
    ensures forall k :: from <= k < j ==> s[k] in seps
    ensures j < |s| ==> s[j] !in seps
    decreases |s| - from
  {
    if from == |s| || s[from] !in seps then from else SeparatorRunEnd(seps, s, from + 1)
  }

  /**
   * The slices `read_token` takes: `token_end` is the first separator and
   * `separator_end` the first non-separator after it, each left at 0 when its
   * loop runs out of input; slicing `token_end .. separator_end` with a start
   * past the end panics.
   */
  function ReadTokenSpec(seps: set<char>, input: string): ReadOutcome
  {
    var i := FirstSeparator(seps, input);
    var tokenEnd := if i < |input| then i else 0;
    var separatorEnd :=
      if i < |input| then
        var j := SeparatorRunEnd(seps, input, i + 1);
        if j < |input| then j else 0
      else 0;
    if tokenEnd <= separatorEnd then
      Read(Token(input[..tokenEnd], input[tokenEnd..separatorEnd]), input[separatorEnd..])
    else
      SlicePanic
  }

  /** `read_token`: two scans over the characters of `input`. */
  method ReadToken(seps: set<char>, input: string) returns (r: ReadOutcome)
    ensures r == ReadTokenSpec(seps, input)
  {
    var next := 0;  // position of the `char_indices` iterator
    var tokenEnd := 0;
    while next < |input|
      invariant next <= |input|
      invariant forall k :: 0 <= k < next ==> input[k] !in seps
    {
      var index, c := next, input[next];
      next := next + 1;
      if c in seps {
        tokenEnd := index;
        break;
      }
    }
    ghost var scanned := next;
    assert tokenEnd == if FirstSeparator(seps, input) < |input| then FirstSeparator(seps, input) else 0;
    assert scanned == if FirstSeparator(seps, input) < |input| then FirstSeparator(seps, input) + 1 else |input|;

    var separatorEnd := 0;
    while next < |input|
      invariant scanned <= next <= |input|
      invariant forall k :: scanned <= k < next ==> input[k] in seps
    {
      var index, c := next, input[next];
      next := next + 1;
      if c !in seps {
        separatorEnd := index;
        break;
      }
    }
    assert scanned < |input| ==> separatorEnd == (var j := SeparatorRunEnd(seps, input, scanned); if j < |input| then j else 0);

    if tokenEnd <= separatorEnd {
      r := Read(Token(input[..tokenEnd], input[tokenEnd..separatorEnd]), input[separatorEnd..]);
    } else {
      r := SlicePanic;
    }
  }

  /**
   * `Tokenizer::tokenize`, run for at most `fuel` iterations of its `loop`.
   * The `remaining` bound inside the loop shadows the outer one, so every
   * iteration reads the first token of the whole input again.
   */
  method Tokenize(t: Tokenizer, input: string, fuel: nat) returns (r: TokenizeOutcome)
    ensures fuel == 0 ==> r == OutOfFuel([])
    ensures r.Finished? <==> fuel > 0 && ReadTokenSpec(t.separators, input).Read? && ReadTokenSpec(t.separators, input).token.IsEmpty()
    ensures r.Finished? ==> r.tokens == []
    ensures r.Panicked? <==> fuel > 0 && ReadTokenSpec(t.separators, input).SlicePanic?
    ensures r.OutOfFuel? && fuel > 0 ==>
      && ReadTokenSpec(t.separators, input).Read?
      && |r.tokens| == fuel
      && forall k :: 0 <= k < fuel ==> r.tokens[k] == ReadTokenSpec(t.separators, input).token
  {
    var output: seq<Token> := [];
    var remaining := input;
    var steps := 0;
    while steps < fuel
      invariant steps <= fuel
      invariant remaining == input
      invariant |output| == steps
      invariant steps > 0 ==> ReadTokenSpec(t.separators, input).Read? && !ReadTokenSpec(t.separators, input).token.IsEmpty()
      invariant forall k :: 0 <= k < steps ==> output[k] == ReadTokenSpec(t.separators, input).token
    {
      var result := ReadToken(t.separators, remaining);
      match result {
        case SlicePanic =>
          return Panicked;
        case Read(token, remaining') =>  // `remaining'` is the shadowing binding, never used
          if token.IsEmpty() {
            return Finished(output);
          }
          output := output + [token];
      }
      steps := steps + 1;
    }
    r := OutOfFuel(output);
  }

  // ---------------------------------------------------------------------
  // Properties of read_token
  // ---------------------------------------------------------------------

  /** Whatever `read_token` reads, value, suffix and remaining text put back together give the input. */
  lemma ReadTokenReassembles(seps: set<char>, input: string)
    requires ReadTokenSpec(seps, input).Read?
    ensures var r := ReadTokenSpec(seps, input);
      r.token.value + r.token.suffix + r.remaining == input
  {
    var r := ReadTokenSpec(seps, input);
    var a := |r.token.value|;
    var b := a + |r.token.suffix|;
    assert input[..a] + input[a..b] + input[b..] == input;
  }

  /** The value holds no separator and the suffix holds nothing but separators. */
  lemma ReadTokenParts(seps: set<char>, input: string)
    requires ReadTokenSpec(seps, input).Read?
    ensures var r := ReadTokenSpec(seps, input);
      && (forall k :: 0 <= k < |r.token.value| ==> r.token.value[k] !in seps)
      && (forall k :: 0 <= k < |r.token.suffix| ==> r.token.suffix[k] in seps)
  {
  }

  /**
   * When the first separator at `i` is followed by a non-separator at `j`,
   * the token is `input[..i]` with suffix `input[i..j]` and reading resumes at `j`.
   */
  lemma ReadTokenSplitsAtSeparatorRun(seps: set<char>, input: string, i: nat, j: nat)
    requires i < j < |input|
    requires forall k :: 0 <= k < i ==> input[k] !in seps
    requires forall k :: i <= k < j ==> input[k] in seps
    requires input[j] !in seps
    ensures ReadTokenSpec(seps, input) == Read(Token(input[..i], input[i..j]), input[j..])
  {
    var f := FirstSeparator(seps, input);
    assert f == i by {
      assert input[i] in seps;
    }
    var e := SeparatorRunEnd(seps, input, i + 1);
    assert e == j by {
      assert input[j] !in seps;
    }
  }

  /** Input without any separator gives the empty token and leaves the input unread: a last word without trailing whitespace is never read. */
  lemma ReadTokenWithoutSeparator(seps: set<char>, input: string)
    requires forall k :: 0 <= k < |input| ==> input[k] !in seps
    ensures ReadTokenSpec(seps, input) == Read(Token([], []), input)
  {
  }

  /**
   * `read_token` panics exactly when the input does not start with a
   * separator, has one, and is made of separators from the first one on.
   */
  lemma ReadTokenPanicsIff(seps: set<char>, input: string)
    ensures ReadTokenSpec(seps, input).SlicePanic? <==>
      exists i :: 0 < i < |input| && input[i] in seps && input[0] !in seps
        && (forall k :: 0 <= k < i ==> input[k] !in seps)
        && (forall k :: i <= k < |input| ==> input[k] in seps)
  {
    var f := FirstSeparator(seps, input);
    if ReadTokenSpec(seps, input).SlicePanic? {
      var j := SeparatorRunEnd(seps, input, f + 1);
      assert j == |input|;
      assert 0 < f < |input| && input[f] in seps && input[0] !in seps;
      assert forall k :: f <= k < |input| ==> input[k] in seps;
    }
    if exists i :: 0 < i < |input| && input[i] in seps && input[0] !in seps
        && (forall k :: 0 <= k < i ==> input[k] !in seps)
        && (forall k :: i <= k < |input| ==> input[k] in seps) {
      var i :| 0 < i < |input| && input[i] in seps && input[0] !in seps
        && (forall k :: 0 <= k < i ==> input[k] !in seps)
        && (forall k :: i <= k < |input| ==> input[k] in seps);
      assert f == i;
      var j := SeparatorRunEnd(seps, input, f + 1);
      assert j == |input|;
    }
  }

  /**
   * The token is empty exactly when the input has no separator or consists
   * of separators only; this is when `tokenize` stops.
   */
  lemma ReadTokenEmptyIff(seps: set<char>, input: string)
    ensures (ReadTokenSpec(seps, input).Read? && ReadTokenSpec(seps, input).token.IsEmpty()) <==>
      (forall k :: 0 <= k < |input| ==> input[k] !in seps) || (forall k :: 0 <= k < |input| ==> input[k] in seps)
  {
    var f := FirstSeparator(seps, input);
    if f < |input| {
      var j := SeparatorRunEnd(seps, input, f + 1);
      if f == 0 && j == |input| {
        assert forall k :: 0 <= k < |input| ==> input[k] in seps by {
          forall k | 0 <= k < |input| ensures input[k] in seps {
            if k > 0 { assert f + 1 <= k < j; }
          }
        }
      } else if f == 0 {
        assert input[j] !in seps;
        assert ReadTokenSpec(seps, input).token.suffix == input[0..j];
      } else {
        assert input[0] !in seps && input[f] in seps;
      }
    }
  }
}

module TokenizerCorrected {
  import opened Tokenizer

  /** The text that `tokens` were cut from: every value followed by its suffix. */
  function Concat(tokens: seq<Token>): string
  {
    if tokens == [] then []
    else Concat(tokens[..|tokens| - 1]) + tokens[|tokens| - 1].value + tokens[|tokens| - 1].suffix
  }

  /**
   * What the corrected loop keeps: the tokens read so far and the remaining
   * text together give the input; each token is non-empty and well formed;
   * every token but the last ends with a separator run, and every token but
   * the first starts with a value; and the text still to read continues
   * after a complete separator run.
   */
  predicate TokensSoFar(seps: set<char>, tokens: seq<Token>, remaining: string, input: string)
  {
    && Concat(tokens) + remaining == input
    && (forall k :: 0 <= k < |tokens| ==> !tokens[k].IsEmpty() && WellFormed(seps, tokens[k]))
    && (forall k :: 0 <= k < |tokens| - 1 ==> tokens[k].suffix != [])
    && (forall k :: 0 < k < |tokens| ==> tokens[k].value != [])
    && (|tokens| > 0 && remaining != [] ==> tokens[|tokens| - 1].suffix != [] && remaining[0] !in seps)
  }

  /**
   * The corrected reader takes whole runs: the token's value stops only at a
   * separator, its suffix stops only at a non-separator, and an empty suffix
   * means the input is used up.
   */
  lemma ReadTokenCorrectedMaximal(seps: set<char>, input: string)
    ensures var (t, rest) := ReadTokenCorrected(seps, input);
      && (t.suffix == [] ==> rest == [])
      && (rest != [] ==> rest[0] !in seps)
      && (input != [] && input[0] !in seps ==> t.value != [])
  {
  }

  /** Appending a token read from the remaining text keeps the concatenation equal to the input. */
  lemma ConcatAppend(tokens: seq<Token>, t: Token, rest: string, remaining: string, input: string)
    requires Concat(tokens) + remaining == input
    requires t.value + t.suffix + rest == remaining
    ensures Concat(tokens + [t]) + rest == input
  {
    assert (tokens + [t])[..|tokens|] == tokens;
  }

  /**
   * Appending a non-empty, well-formed token keeps the shape of the split:
   * all tokens but the last end with separators and all but the first
   * start with a value.
   */
  lemma AppendKeepsShape(seps: set<char>, tokens: seq<Token>, t: Token)
    requires forall k :: 0 <= k < |tokens| ==> !tokens[k].IsEmpty() && WellFormed(seps, tokens[k])
    requires forall k :: 0 <= k < |tokens| - 1 ==> tokens[k].suffix != []
    requires forall k :: 0 < k < |tokens| ==> tokens[k].value != []
    requires |tokens| > 0 ==> tokens[|tokens| - 1].suffix != [] && t.value != []
    requires !t.IsEmpty() && WellFormed(seps, t)
    ensures var ts := tokens + [t];
      && (forall k :: 0 <= k < |ts| ==> !ts[k].IsEmpty() && WellFormed(seps, ts[k]))
      && (forall k :: 0 <= k < |ts| - 1 ==> ts[k].suffix != [])
      && (forall k :: 0 < k < |ts| ==> ts[k].value != [])
  {
    assert forall k :: 0 <= k < |tokens| ==> (tokens + [t])[k] == tokens[k];
  }

  /** Reading one more token from non-empty remaining text keeps `TokensSoFar` and shortens the text. */
  lemma TokenizeStep(seps: set<char>, tokens: seq<Token>, remaining: string, input: string)
    requires TokensSoFar(seps, tokens, remaining, input)
    requires remaining != []
    ensures var (t, rest) := ReadTokenCorrected(seps, remaining);
      && !t.IsEmpty() && |rest| < |remaining|
      && TokensSoFar(seps, tokens + [t], rest, input)
  {
    var (t, rest) := ReadTokenCorrected(seps, remaining);
    ReadTokenCorrectedMaximal(seps, remaining);
    ConcatAppend(tokens, t, rest, remaining, input);
    AppendKeepsShape(seps, tokens, t);
  }

  /** A token as the tokenizer means it: a separator-free value, then separators only. */
  predicate WellFormed(seps: set<char>, t: Token)
  {
    && (forall k :: 0 <= k < |t.value| ==> t.value[k] !in seps)
    && (forall k :: 0 <= k < |t.suffix| ==> t.suffix[k] in seps)
  }

  /**
   * `read_token` with each bound that its loop leaves unset taken as the end
   * of the input instead of 0: a last word is read, and a trailing run of
   * separators becomes its suffix.
   */
  function ReadTokenCorrected(seps: set<char>, input: string): (r: (Token, string))
    ensures r.0.value + r.0.suffix + r.1 == input
    ensures WellFormed(seps, r.0)
    ensures input != [] ==> !r.0.IsEmpty()
  {
    var i := FirstSeparator(seps, input);
    var j := if i < |input| then SeparatorRunEnd(seps, input, i + 1) else |input|;
    assert input[..i] + input[i..j] + input[j..] == input;
    (Token(input[..i], input[i..j]), input[j..])
  }

  /**
   * `tokenize` with the outer `remaining` advanced past each token: it ends,
   * and the tokens put back together give the input.  Each value runs up to
   * the next separator and each suffix takes the whole separator run after
   * it, which fixes the split: only the first value and the last suffix can
   * be empty.
   */
  method TokenizeCorrected(t: Tokenizer, input: string) returns (tokens: seq<Token>)
    ensures Concat(tokens) == input
    ensures forall k :: 0 <= k < |tokens| ==> !tokens[k].IsEmpty() && WellFormed(t.separators, tokens[k])
    ensures forall k :: 0 <= k < |tokens| - 1 ==> tokens[k].suffix != []
    ensures forall k :: 0 < k < |tokens| ==> tokens[k].value != []
  {
    tokens := [];
    var remaining := input;
    while true
      invariant TokensSoFar(t.separators, tokens, remaining, input)
      decreases |remaining|
    {
      var (token, rest) := ReadTokenCorrected(t.separators, remaining);
      if token.IsEmpty() {
        break;
      }
      TokenizeStep(t.separators, tokens, remaining, input);
      tokens := tokens + [token];
      remaining := rest;
    }
  }

  /**
   * As written, `read_token` panics on a word followed only by whitespace and
   * leaves a word without trailing whitespace unread.
   */
  lemma ReadTokenEndOfInputDefects()
    ensures ReadTokenSpec(Default().separators, "a ") == SlicePanic
    ensures ReadTokenSpec(Default().separators, "ab") == Read(Token("", ""), "ab")
  {
    ReadTokenPanicsIff(Default().separators, "a ");
    assert 0 < 1 < |"a "| && "a "[1] in Default().separators && "a "[0] !in Default().separators;
    ReadTokenWithoutSeparator(Default().separators, "ab");
  }

  /** The corrected reader takes the whole of a last word and of a trailing separator run. */
  lemma ReadTokenCorrectedAtEndOfInput()
    ensures ReadTokenCorrected(Default().separators, "a ") == (Token("a", " "), "")
    ensures ReadTokenCorrected(Default().separators, "ab") == (Token("ab", ""), "")
  {
    assert FirstSeparator(Default().separators, "a ") == 1 by {
      assert "a "[0] !in Default().separators && "a "[1] in Default().separators;
    }
    assert SeparatorRunEnd(Default().separators, "a ", 2) == 2;
    assert "a "[..1] == "a" && "a "[1..2] == " " && "a "[2..] == "";
    assert FirstSeparator(Default().separators, "ab") == 2 by {
      assert "ab"[0] !in Default().separators && "ab"[1] !in Default().separators;
    }
  }

  /**
   * As written, `tokenize` on "a b" pushes the token "a " again on every
   * iteration and never returns.
   */
  method TokenizeTwoWordsNeverFinishes(fuel: nat) returns (r: TokenizeOutcome)
    ensures !r.Finished?
    ensures fuel > 0 ==> r.OutOfFuel? && |r.tokens| == fuel && r.tokens[0] == Token("a", " ")
  {
    ReadTokenSplitsAtSeparatorRun(Default().separators, "a b", 1, 2);
    assert "a b"[..1] == "a" && "a b"[1..2] == " ";
    r := Tokenize(Default(), "a b", fuel);
  }
}
