/** The hangman game of week1/part-3-hangman/src/main.rs: the secret word, the word as
    revealed so far, the letters guessed and the count of wrong guesses. The random word and
    the lines typed by the player are inputs. */
module Hangman {
  import opened Wrappers

  /** `NUM_INCORRECT_GUESSES`. */
  const NUM_INCORRECT_GUESSES: nat := 5

  /** The characters `str::trim` removes: those with the Unicode `White_Space` property. */
  predicate IsWhitespace(c: char)
  {
    || '\t' <= c <= '\r' || c == ' ' || c == '\U{85}' || c == '\U{A0}' || c == '\U{1680}'
    || '\U{2000}' <= c <= '\U{200A}' || c == '\U{2028}' || c == '\U{2029}' || c == '\U{202F}'
    || c == '\U{205F}' || c == '\U{3000}'
  }

  /** The first `i` characters of `line` are white space. */
  predicate BlankBefore(line: string, i: nat)
    requires i <= |line|
  {
    forall j :: 0 <= j < i ==> IsWhitespace(line[j])
  }

  /** `guess_line.trim().chars().next()`: the first character that is not white space, or
      `None` for a blank line (which the `unwrap` turns into a panic). */
  function GuessOf(line: string): Option<char>
  {
    if line == [] then None
    else if !IsWhitespace(line[0]) then Some(line[0])
    else GuessOf(line[1..])
  }

  /** The guess is `None` exactly for a line of white space only; otherwise it is the first
      character that is not white space. */
  lemma {:induction false} GuessIsFirstNonBlank(line: string)
    ensures GuessOf(line).None? <==> BlankBefore(line, |line|)
    ensures GuessOf(line).Some? ==>
      exists i :: 0 <= i < |line| && line[i] == GuessOf(line).value && !IsWhitespace(line[i]) && BlankBefore(line, i)
  {
    if line != [] && IsWhitespace(line[0]) {
      var rest := line[1..];
      GuessIsFirstNonBlank(rest);
      assert forall i :: 0 < i < |line| ==> rest[i - 1] == line[i];
      if GuessOf(rest).Some? {
        var i :| 0 <= i < |rest| && rest[i] == GuessOf(rest).value && !IsWhitespace(rest[i]) && BlankBefore(rest, i);
        assert BlankBefore(line, i + 1);
      }
    }
  }

  /** The word shown after the letters `guessed`: each letter of the secret that has been
      guessed, and `-` for the others. */
  function Revealed(secret: string, guessed: seq<char>): string
  {
    seq(|secret|, i requires 0 <= i < |secret| => if secret[i] in guessed then secret[i] else '-')
  }

  /** How many of the guesses are not in the secret word. */
  function Misses(secret: string, guessed: seq<char>): nat
  {
    if guessed == [] then 0
    else Misses(secret, guessed[..|guessed| - 1]) + (if guessed[|guessed| - 1] in secret then 0 else 1)
  }

  /** The condition of the game loop: guesses are left and the word is not yet found. */
  predicate GoesOn(secret: string, guessed: seq<char>)
  {
    Misses(secret, guessed) < NUM_INCORRECT_GUESSES && Revealed(secret, guessed) != secret
  }

  /** The game from the letters `guessed` so far, reading one line of input per round: the
      letters guessed when the loop ends, or a panic when a line is blank or the input ends
      (`read_line` then leaves the line empty). */
  function PlayFrom(secret: string, guessed: seq<char>, lines: seq<string>): Completion<seq<char>>
    decreases |lines|
  {
    if !GoesOn(secret, guessed) then Returns(guessed)
    else if lines == [] then Panics
    else match GuessOf(lines[0])
      case None => Panics
      case Some(c) => PlayFrom(secret, guessed + [c], lines[1..])
  }

  /** Before any guess every position is hidden: `"-".repeat(secret_word.len())`. */
  lemma StartsHidden(secret: string)
    ensures Revealed(secret, []) == seq(|secret|, _ => '-')
    ensures Misses(secret, []) == 0
  {
  }

  /** Each position of the shown word is either `-` or the secret's letter there. */
  lemma RevealedShape(secret: string, guessed: seq<char>)
    ensures |Revealed(secret, guessed)| == |secret|
    ensures forall i :: 0 <= i < |secret| ==>
      Revealed(secret, guessed)[i] == '-' || Revealed(secret, guessed)[i] == secret[i]
  {
  }

  /** A letter in the word reveals exactly the positions that hold it and costs nothing. */
  lemma {:induction false} GuessHits(secret: string, guessed: seq<char>, c: char)
    requires c in secret
    ensures forall i :: 0 <= i < |secret| ==>
      Revealed(secret, guessed + [c])[i] == if secret[i] == c then c else Revealed(secret, guessed)[i]
    ensures Misses(secret, guessed + [c]) == Misses(secret, guessed)
  {
    assert (guessed + [c])[..|guessed|] == guessed;
  }

  /** A letter not in the word leaves the shown word as it was and costs one guess. */
  lemma {:induction false} GuessMisses(secret: string, guessed: seq<char>, c: char)
    requires c !in secret
    ensures Revealed(secret, guessed + [c]) == Revealed(secret, guessed)
    ensures Misses(secret, guessed + [c]) == Misses(secret, guessed) + 1
  {
    assert (guessed + [c])[..|guessed|] == guessed;
    forall i | 0 <= i < |secret|
      ensures secret[i] in guessed + [c] <==> secret[i] in guessed
    {
      assert secret[i] != c;
    }
  }

  /** The word is found exactly when every letter of the secret other than `-` was guessed
      (a `-` in the secret counts as found from the start). */
  lemma WonIff(secret: string, guessed: seq<char>)
    ensures Revealed(secret, guessed) == secret <==>
      forall i :: 0 <= i < |secret| ==> secret[i] == '-' || secret[i] in guessed
  {
    if Revealed(secret, guessed) == secret {
      forall i | 0 <= i < |secret|
        ensures secret[i] == '-' || secret[i] in guessed
      {
        assert Revealed(secret, guessed)[i] == secret[i];
      }
    }
  }

  /** When the game ends without a panic, either the word was found or all five wrong
      guesses were spent, never more; each round added the guess of its line. */
  lemma {:induction false} PlayEnds(secret: string, guessed: seq<char>, lines: seq<string>)
    requires Misses(secret, guessed) <= NUM_INCORRECT_GUESSES
    ensures PlayFrom(secret, guessed, lines).Returns? ==>
      var g := PlayFrom(secret, guessed, lines).value;
      && Misses(secret, g) <= NUM_INCORRECT_GUESSES
      && (Revealed(secret, g) == secret || Misses(secret, g) == NUM_INCORRECT_GUESSES)
      && |guessed| <= |g| <= |guessed| + |lines|
      && g[..|guessed|] == guessed
      && forall k :: |guessed| <= k < |g| ==> GuessOf(lines[k - |guessed|]) == Some(g[k])
    decreases |lines|
  {
    if GoesOn(secret, guessed) && lines != [] && GuessOf(lines[0]).Some? {
      var c := GuessOf(lines[0]).value;
      var g1 := guessed + [c];
      assert g1[..|g1| - 1] == guessed;
      PlayEnds(secret, g1, lines[1..]);
      if PlayFrom(secret, g1, lines[1..]).Returns? {
        var g := PlayFrom(secret, g1, lines[1..]).value;
        assert g[..|guessed|] == g1[..|guessed|] == guessed;
        assert g[|guessed|] == g1[|guessed|] == c;
        forall k | |guessed| < k < |g|
          ensures GuessOf(lines[k - |guessed|]) == Some(g[k])
        {
          assert lines[k - |guessed|] == lines[1..][k - |g1|];
        }
      }
    }
  }

  /** The `for` loop that writes the guessed letter into every position of the shown word
      where the secret has it. */
  method Reveal(secret: string, word: string, c: char) returns (w: string)
    requires |word| == |secret|
    ensures |w| == |secret|
    ensures forall i :: 0 <= i < |secret| ==> w[i] == if secret[i] == c then c else word[i]
  {
    w := word;
    for i := 0 to |secret|
      invariant |w| == |secret|
      invariant forall j :: 0 <= j < i ==> w[j] == if secret[j] == c then c else word[j]
      invariant forall j :: i <= j < |secret| ==> w[j] == word[j]
    {
      if secret[i] == c {
        w := w[i := c];
      }
    }
  }

  /** `main` after the word is picked: the game loop, then the final test. `won` is whether the
      congratulations are printed; `guessed`, `word` and `incorrect` are the final state. */
  method Play(secret: string, lines: seq<string>)
    returns (r: Completion<bool>, guessed: seq<char>, word: string, incorrect: nat)
    ensures r.Panics? <==> PlayFrom(secret, [], lines).Panics?
    ensures r.Returns? ==>
      && PlayFrom(secret, [], lines) == Returns(guessed)
      && word == Revealed(secret, guessed)
      && incorrect == Misses(secret, guessed) <= NUM_INCORRECT_GUESSES
      && (r.value <==> word == secret)
      && (r.value || incorrect == NUM_INCORRECT_GUESSES)
  {
    word := seq(|secret|, _ => '-');
    guessed := [];
    incorrect := 0;
    StartsHidden(secret);
    var rest := lines;
    while incorrect < NUM_INCORRECT_GUESSES && word != secret
      invariant word == Revealed(secret, guessed)
      invariant incorrect == Misses(secret, guessed) <= NUM_INCORRECT_GUESSES
      invariant PlayFrom(secret, [], lines) == PlayFrom(secret, guessed, rest)
      decreases |rest|
    {
      if rest == [] {
        return Panics, guessed, word, incorrect;  // end of input: the line stays empty
      }
      var guess := GuessOf(rest[0]);
      if guess.None? {
        return Panics, guessed, word, incorrect;  // `unwrap` on a blank line
      }
      var c := guess.value;
      var before := guessed;
      guessed := guessed + [c];
      rest := rest[1..];
      if c in secret {
        word := Reveal(secret, word, c);
        GuessHits(secret, before, c);
      } else {
        GuessMisses(secret, before, c);
        incorrect := incorrect + 1;
      }
    }
    r := Returns(word == secret);
  }
}
