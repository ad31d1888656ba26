/** What getLexemesInLine makes of a line is a normal form. */
module LexemeTheorems {
  import opened Lexer

  /** A run of characters that is neither white space, nor a separator, nor the start of a comment. */
  predicate IsWord(x: string) {
    x != "" && (forall i | 0 <= i < |x| :: InWord(x[i])) && x[0] != ';' && x[0] != '#'
  }

  predicate IsLexeme(x: string) {
    x == "," || x == "\n" || IsWord(x)
  }

  /** Room for the lexemes behind `count` others: separators are stored up to number 10, words up to number 99. */
  predicate Fits(lexemes: seq<string>, count: nat) {
    forall i | 0 <= i < |lexemes| :: FitsAt(lexemes[i], count + i)
  }

  predicate FitsAt(x: string, place: nat) {
    place < MAX_LEXEMES && (IsWord(x) || place <= MAX_SEPARATORS)
  }

  /** What is read of a line, and what is left when reading stops. */
  datatype Extent = Extent(read: string, unread: string)

  function ExtentOf(s: string, count: nat): (r: Extent)
    ensures s == r.read + r.unread
    decreases |s|
  {
    if s != "" && Skipped(s[0]) then Behind([s[0]], ExtentOf(s[1..], count))
    else if Stops(s) then Extent("", s)
    else if IsSeparator(s[0]) then
      if count <= MAX_SEPARATORS then Behind([s[0]], ExtentOf(s[1..], count + 1)) else Extent("", s)
    else
      var n := WordLength(s);
      if count < MAX_LEXEMES then Behind(s[..n], ExtentOf(s[n..], count + 1)) else Extent("", s)
  }

  function Behind(w: string, e: Extent): (r: Extent)
    ensures r.read + r.unread == w + (e.read + e.unread)
  {
    Extent(w + e.read, e.unread)
  }

  function Concat(lexemes: seq<string>): string {
    if lexemes == [] then "" else lexemes[0] + Concat(lexemes[1..])
  }

  /** White space removed, newlines excepted. */
  function Squeezed(s: string): string {
    if s == "" then "" else (if Skipped(s[0]) then "" else [s[0]]) + Squeezed(s[1..])
  }

  function Joined(lexemes: seq<string>): string {
    if lexemes == [] then ""
    else if |lexemes| == 1 then lexemes[0]
    else lexemes[0] + " " + Joined(lexemes[1..])
  }

  lemma SeparatorIsLexeme(c: char)
    requires IsSeparator(c)
    ensures IsLexeme([c])
  {
  }

  lemma FitsNone(count: nat)
    ensures Fits([], count)
  {
  }

  lemma FitsBefore(x: string, rest: seq<string>, count: nat)
    requires Fits(rest, count + 1) && count < MAX_LEXEMES && (IsWord(x) || (IsLexeme(x) && count <= MAX_SEPARATORS))
    ensures IsLexeme(x) && Fits([x] + rest, count)
  {
    hide IsWord;
    var all := [x] + rest;
    forall i | 0 <= i < |all| ensures FitsAt(all[i], count + i) {
      if i > 0 {
        var j := i - 1;
        assert all[i] == rest[j] && FitsAt(rest[j], count + 1 + j);
      }
    }
  }

  lemma {:induction false} LexemesAreNormal(s: string, count: nat)
    ensures forall x | x in Lexemes(s, count) :: IsLexeme(x)
    ensures Fits(Lexemes(s, count), count)
    decreases |s|
  {
    hide Fits, IsLexeme;
    FitsNone(count);
    if s != "" && Skipped(s[0]) {
      LexemesAreNormal(s[1..], count);
    } else if Stops(s) {
    } else if IsSeparator(s[0]) {
      if count <= MAX_SEPARATORS {
        LexemesAreNormal(s[1..], count + 1);
        SeparatorIsLexeme(s[0]);
        FitsBefore([s[0]], Lexemes(s[1..], count + 1), count);
      }
    } else {
      var n := WordLength(s);
      if count < MAX_LEXEMES {
        LexemesAreNormal(s[n..], count + 1);
        FitsBefore(s[..n], Lexemes(s[n..], count + 1), count);
      }
    }
  }

  lemma ExtentSkip(s: string, count: nat)
    requires s != "" && Skipped(s[0])
    ensures ExtentOf(s, count) == Behind([s[0]], ExtentOf(s[1..], count))
  {
  }

  lemma ExtentSeparator(s: string, count: nat)
    requires s != "" && IsSeparator(s[0])
    ensures ExtentOf(s, count)
         == if count <= MAX_SEPARATORS then Behind([s[0]], ExtentOf(s[1..], count + 1)) else Extent("", s)
  {
  }

  lemma ExtentWord(s: string, count: nat, n: nat)
    requires !Stops(s) && n == WordLength(s) > 0
    ensures ExtentOf(s, count)
         == if count < MAX_LEXEMES then Behind(s[..n], ExtentOf(s[n..], count + 1)) else Extent("", s)
  {
    assert InWord(s[0]);
  }

  /** What was read, white space removed, is the concatenation of the lexemes. */
  lemma {:induction false} LexemesCoverWhatWasRead(s: string, count: nat)
    ensures Concat(Lexemes(s, count)) == Squeezed(ExtentOf(s, count).read)
    decreases |s|
  {
    hide Lexemes, ExtentOf, Squeezed, WordLength;
    NothingSqueezed();
    if s != "" && Skipped(s[0]) {
      SkipStep(s, count);
      ExtentSkip(s, count);
      LexemesCoverWhatWasRead(s[1..], count);
      SqueezedBlank(s[0], ExtentOf(s[1..], count).read);
    } else if Stops(s) {
      StopStep(s, count);
      ExtentStop(s, count);
    } else if IsSeparator(s[0]) {
      SeparatorStep(s, count);
      ExtentSeparator(s, count);
      if count <= MAX_SEPARATORS {
        LexemesCoverWhatWasRead(s[1..], count + 1);
        SqueezedOther(s[0], ExtentOf(s[1..], count + 1).read);
      }
    } else {
      var n := WordLength(s);
      WordStep(s, count, n);
      ExtentWord(s, count, n);
      if count < MAX_LEXEMES {
        LexemesCoverWhatWasRead(s[n..], count + 1);
        SqueezedWord(s[..n], ExtentOf(s[n..], count + 1).read);
      }
    }
  }

  lemma ExtentStop(s: string, count: nat)
    requires Stops(s)
    ensures ExtentOf(s, count) == Extent("", s)
  {
  }

  lemma NothingSqueezed()
    ensures Squeezed("") == ""
  {
  }

  lemma SqueezedBlank(c: char, s: string)
    requires Skipped(c)
    ensures Squeezed([c] + s) == Squeezed(s)
  {
    assert ([c] + s)[1..] == s;
  }

  lemma SqueezedOther(c: char, s: string)
    requires !Skipped(c)
    ensures Squeezed([c] + s) == [c] + Squeezed(s)
  {
    assert ([c] + s)[1..] == s;
  }

  lemma {:induction false} SqueezedWord(w: string, s: string)
    requires forall i | 0 <= i < |w| :: InWord(w[i])
    ensures Squeezed(w + s) == w + Squeezed(s)
  {
    if w == "" {
      assert w + s == s;
    } else {
      assert (w + s)[1..] == w[1..] + s;
      SqueezedWord(w[1..], s);
    }
  }

  /** Reading ends at the end of the line, at a comment, or at a lexeme for which there is no room. */
  lemma {:induction false} WhereReadingEnds(s: string, count: nat)
    ensures var rest, stored := ExtentOf(s, count).unread, count + |Lexemes(s, count)|;
            Stops(rest)
            || (IsSeparator(rest[0]) && stored > MAX_SEPARATORS)
            || (InWord(rest[0]) && stored >= MAX_LEXEMES)
    decreases |s|
  {
    hide Lexemes, ExtentOf, WordLength;
    if s != "" && Skipped(s[0]) {
      SkipStep(s, count);
      ExtentSkip(s, count);
      WhereReadingEnds(s[1..], count);
    } else if Stops(s) {
      ExtentStop(s, count);
    } else if IsSeparator(s[0]) {
      SeparatorStep(s, count);
      ExtentSeparator(s, count);
      if count <= MAX_SEPARATORS {
        WhereReadingEnds(s[1..], count + 1);
      }
    } else {
      var n := WordLength(s);
      WordStep(s, count, n);
      ExtentWord(s, count, n);
      if count < MAX_LEXEMES {
        WhereReadingEnds(s[n..], count + 1);
      }
    }
  }

  // ---- reading back ----

  lemma {:induction false} WordLengthOf(w: string, s: string)
    requires (forall i | 0 <= i < |w| :: InWord(w[i])) && (s == "" || !InWord(s[0]))
    ensures WordLength(w + s) == |w|
  {
    if w == "" {
      assert w + s == s;
    } else {
      assert (w + s)[1..] == w[1..] + s;
      WordLengthOf(w[1..], s);
    }
  }

  /** A word that something other than a word character follows is read as one lexeme. */
  lemma ReadWord(w: string, s: string, count: nat)
    requires IsWord(w) && (s == "" || !InWord(s[0])) && count < MAX_LEXEMES
    ensures Lexemes(w + s, count) == [w] + Lexemes(s, count + 1)
  {
    WordLengthOf(w, s);
    WordStep(w + s, count, |w|);
    assert (w + s)[..|w|] == w && (w + s)[|w|..] == s;
  }

  lemma ReadSeparator(x: string, s: string, count: nat)
    requires (x == "," || x == "\n") && count <= MAX_SEPARATORS
    ensures Lexemes(x + s, count) == [x] + Lexemes(s, count + 1)
  {
    SeparatorStep(x + s, count);
    assert (x + s)[1..] == s;
  }

  lemma ReadBlank(s: string, count: nat)
    ensures Lexemes(" " + s, count) == Lexemes(s, count)
  {
    SkipStep(" " + s, count);
    assert (" " + s)[1..] == s;
  }

  lemma FitsTail(lexemes: seq<string>, count: nat)
    requires (forall x | x in lexemes :: IsLexeme(x)) && Fits(lexemes, count) && lexemes != []
    ensures IsLexeme(lexemes[0]) && FitsAt(lexemes[0], count)
    ensures (forall x | x in lexemes[1..] :: IsLexeme(x)) && Fits(lexemes[1..], count + 1)
  {
    hide IsLexeme, FitsAt;
    var rest := lexemes[1..];
    assert lexemes[0] in lexemes && forall y | y in rest :: y in lexemes;
    forall i | 0 <= i < |rest| ensures FitsAt(rest[i], count + 1 + i) {
      var j := i + 1;
      assert rest[i] == lexemes[j] && FitsAt(lexemes[j], count + j);
    }
  }

  /** What follows the first lexeme of several that are joined. */
  function JoinedBehind(rest: seq<string>): string {
    if rest == [] then "" else " " + Joined(rest)
  }

  lemma JoinedStep(lexemes: seq<string>)
    requires lexemes != []
    ensures Joined(lexemes) == lexemes[0] + JoinedBehind(lexemes[1..])
  {
  }

  lemma ReadBehind(rest: seq<string>, count: nat)
    requires Lexemes(Joined(rest), count) == rest
    ensures Lexemes(JoinedBehind(rest), count) == rest
  {
    hide Lexemes;
    if rest == [] {
      StopStep("", count);
    } else {
      ReadBlank(Joined(rest), count);
    }
  }

  /** Lexemes joined by single blanks are read back. */
  lemma {:induction false} ReadJoined(lexemes: seq<string>, count: nat)
    requires (forall x | x in lexemes :: IsLexeme(x)) && Fits(lexemes, count)
    ensures Lexemes(Joined(lexemes), count) == lexemes
    decreases |lexemes|
  {
    hide Lexemes, Joined, Fits, IsWord;
    if lexemes == [] {
      NothingJoined(count);
    } else {
      var x, rest := lexemes[0], lexemes[1..];
      FitsTail(lexemes, count);
      ReadJoined(rest, count + 1);
      ReadBehind(rest, count + 1);
      JoinedStep(lexemes);
      if IsWord(x) {
        ReadWord(x, JoinedBehind(rest), count);
      } else {
        ReadSeparator(x, JoinedBehind(rest), count);
      }
    }
  }

  lemma NothingJoined(count: nat)
    ensures Lexemes(Joined([]), count) == []
  {
  }

  /** Reading the lexemes of any line again, joined by single blanks, yields the same lexemes. */
  lemma RelexingIsIdentity(line: string)
    ensures Lexemes(Joined(Lexemes(line, 0)), 0) == Lexemes(line, 0)
  {
    LexemesAreNormal(line, 0);
    ReadJoined(Lexemes(line, 0), 0);
  }
}
