/**
 The keyword scorer of the phishing-call detector: a transcript is cut into
 sentences at every '.', a sentence is flagged when, ignoring case, one of
 the phishing keywords occurs in it, and the score is the number of flagged
 sentences, the number of sentences and the flagged share as a percentage.
 */
module Phishing {
  import opened PyStr

  /** The character the transcript is split on. */
  const SentenceSeparator: char := '.'

  /** `word.lower() in sentence.lower()`. */
  predicate Matches(sentence: string, word: string)
    ensures word == [] ==> Matches(sentence, word)
    ensures Matches(sentence, word) ==> |word| <= |sentence|
  {
    Contains(Lower(sentence), Lower(word))
  }

  /** `word` occurs in `sentence` at index `i` when case is ignored. */
  ghost predicate KeywordAt(sentence: string, word: string, i: int)
  {
    0 <= i && i + |word| <= |sentence| && Lower(sentence[i..i + |word|]) == Lower(word)
  }

  /** Some keyword of `words` matches `sentence`. */
  ghost predicate Flagged(sentence: string, words: seq<string>)
    ensures "" in words ==> Flagged(sentence, words)
    ensures words == [] ==> !Flagged(sentence, words)
  {
    exists w :: w in words && Matches(sentence, w)
  }

  /** The number of flagged sentences, prefix by prefix: the count of all
      but the last sentence, plus one if the last is flagged. */
  ghost function CountFlagged(sentences: seq<string>, words: seq<string>): (n: nat)
    ensures n <= |sentences|
  {
    if sentences == [] then 0
    else
      CountFlagged(sentences[..|sentences| - 1], words)
      + (if Flagged(sentences[|sentences| - 1], words) then 1 else 0)
  }

  /** The indices of the flagged sentences. */
  ghost function FlaggedIndices(sentences: seq<string>, words: seq<string>): set<nat>
  {
    set i: nat | i < |sentences| && Flagged(sentences[i], words)
  }

  /**
   `(count / total) * 100 if total > 0 else 0`, as an exact ratio: the share
   of flagged sentences in percent.
   */
  function Percentage(count: nat, total: nat): (p: real)
    ensures total == 0 ==> p == 0.0
    ensures total > 0 ==> p * (total as real) == (count as real) * 100.0
    ensures count <= total ==> 0.0 <= p <= 100.0
    ensures total > 0 ==> (p == 100.0 <==> count == total)
    ensures p == 0.0 <==> count == 0 || total == 0
  {
    if total > 0 then (count as real / total as real) * 100.0 else 0.0
  }

  /**
   `check_for_phishing_words(text, phishing_words)`: splits the transcript
   into sentences and, for each sentence, tries the keywords in order and
   stops at the first one that occurs in it, so that a sentence is counted
   at most once.
   */
  method CheckForPhishingWords(text: string, phishingWords: seq<string>)
    returns (phishingCount: nat, totalSentences: nat, phishingPercentage: real)
    ensures totalSentences == Occurrences(text, SentenceSeparator) + 1
    ensures phishingCount == CountFlagged(Split(text, SentenceSeparator), phishingWords)
    ensures phishingCount <= totalSentences
    ensures phishingPercentage == Percentage(phishingCount, totalSentences)
    ensures 0.0 <= phishingPercentage <= 100.0
  {
    phishingCount := 0;
    var sentences := Split(text, SentenceSeparator);
    totalSentences := |sentences|;
    for i := 0 to |sentences|
      invariant phishingCount == CountFlagged(sentences[..i], phishingWords)
    {
      var sentence := sentences[i];
      ghost var counted := false;
      for j := 0 to |phishingWords|
        invariant !counted
        invariant phishingCount == CountFlagged(sentences[..i], phishingWords)
        invariant forall k :: 0 <= k < j ==> !Matches(sentence, phishingWords[k])
      {
        if Contains(Lower(sentence), Lower(phishingWords[j])) {
          assert phishingWords[j] in phishingWords;
          phishingCount := phishingCount + 1;
          counted := true;
          break;
        }
      }
      assert counted <==> Flagged(sentence, phishingWords);
      assert sentences[..i + 1][..i] == sentences[..i];
    }
    assert sentences[..|sentences|] == sentences;
    phishingPercentage := Percentage(phishingCount, totalSentences);
  }

  // ---------------------------------------------------------------------
  // What is counted
  // ---------------------------------------------------------------------

  /** A keyword matches a sentence exactly when, ignoring case, it occurs in
      the sentence at some index. */
  lemma MatchesIff(sentence: string, word: string)
    ensures Matches(sentence, word) <==> exists i :: KeywordAt(sentence, word, i)
  {
    var hay, needle := Lower(sentence), Lower(word);
    ContainsIff(hay, needle);
    forall i | 0 <= i && i + |word| <= |sentence|
      ensures KeywordAt(sentence, word, i) <==> OccursAt(hay, needle, i)
    {
      LowerSlice(sentence, i, i + |word|);
    }
    if Matches(sentence, word) {
      var i :| OccursAt(hay, needle, i);
      assert KeywordAt(sentence, word, i);
    }
  }

  /** A further sentence adds one to the count when some keyword matches it
      and nothing otherwise, however many keywords match it. */
  lemma CountFlaggedAppend(sentences: seq<string>, sentence: string, words: seq<string>)
    ensures CountFlagged(sentences + [sentence], words)
         == CountFlagged(sentences, words) + (if Flagged(sentence, words) then 1 else 0)
  {
    assert (sentences + [sentence])[..|sentences|] == sentences;
  }

  /** The count is the number of sentences some keyword matches: a sentence
      is counted if and only if it is flagged. */
  lemma {:induction false} CountFlaggedIsCardinality(sentences: seq<string>, words: seq<string>)
    ensures CountFlagged(sentences, words) == |FlaggedIndices(sentences, words)|
  {
    if sentences == [] {
      assert FlaggedIndices(sentences, words) == {};
    } else {
      var n := |sentences| - 1;
      var init := sentences[..n];
      CountFlaggedIsCardinality(init, words);
      var prev, all := FlaggedIndices(init, words), FlaggedIndices(sentences, words);
      var last: set<nat> := if Flagged(sentences[n], words) then {n} else {};
      forall i: nat
        ensures i in all <==> i in prev + last
      {
        if i < n {
          assert init[i] == sentences[i];
          assert i in all <==> Flagged(sentences[i], words);
          assert i in prev <==> Flagged(init[i], words);
        } else if i == n {
          assert i !in prev;
        } else {
          assert i !in all && i !in prev;
        }
      }
      assert all == prev + last;
      assert prev !! last;
    }
  }

  /** The count equals the number of sentences exactly when every sentence
      is flagged. */
  lemma {:induction false} AllFlaggedIff(sentences: seq<string>, words: seq<string>)
    ensures CountFlagged(sentences, words) == |sentences|
        <==> forall i :: 0 <= i < |sentences| ==> Flagged(sentences[i], words)
  {
    if sentences != [] {
      var n := |sentences| - 1;
      var init := sentences[..n];
      AllFlaggedIff(init, words);
      assert forall i :: 0 <= i < n ==> init[i] == sentences[i];
    }
  }

  /** Without keywords no sentence is flagged. */
  lemma {:induction false} NoKeywordsNoneFlagged(sentences: seq<string>)
    ensures CountFlagged(sentences, []) == 0
  {
    if sentences != [] {
      NoKeywordsNoneFlagged(sentences[..|sentences| - 1]);
    }
  }

  /** The empty keyword is in every sentence, so it flags all of them. */
  lemma {:induction false} EmptyKeywordFlagsAll(sentences: seq<string>, words: seq<string>)
    requires "" in words
    ensures CountFlagged(sentences, words) == |sentences|
  {
    if sentences != [] {
      var n := |sentences| - 1;
      EmptyKeywordFlagsAll(sentences[..n], words);
      assert Lower("") == "";
      assert Matches(sentences[n], "");
    }
  }

  /** Adding keywords never lowers the count. */
  lemma {:induction false} MoreKeywordsNoFewerFlagged(sentences: seq<string>, words: seq<string>, more: seq<string>)
    requires forall w :: w in words ==> w in more
    ensures CountFlagged(sentences, words) <= CountFlagged(sentences, more)
  {
    if sentences != [] {
      MoreKeywordsNoFewerFlagged(sentences[..|sentences| - 1], words, more);
    }
  }

  /** The keywords of a list, lower-cased, as a set. */
  ghost function LoweredKeywords(words: seq<string>): set<string>
  {
    set w | w in words :: Lower(w)
  }

  /** A sentence is flagged by one keyword list exactly when it is flagged
      by another that holds the same keywords up to case. */
  lemma SameKeywordsSameFlag(sentence: string, words: seq<string>, others: seq<string>)
    requires LoweredKeywords(words) == LoweredKeywords(others)
    ensures Flagged(sentence, words) == Flagged(sentence, others)
  {
    if Flagged(sentence, words) {
      var w :| w in words && Matches(sentence, w);
      assert Lower(w) in LoweredKeywords(others);
      var v :| v in others && Lower(v) == Lower(w);
      assert Matches(sentence, v);
    }
    if Flagged(sentence, others) {
      var v :| v in others && Matches(sentence, v);
      assert Lower(v) in LoweredKeywords(words);
      var w :| w in words && Lower(w) == Lower(v);
      assert Matches(sentence, w);
    }
  }

  /** Only the set of lower-cased keywords matters: order, repetition and
      case of the keywords do not change the count. */
  lemma {:induction false} SameKeywordsSameCount(sentences: seq<string>, words: seq<string>, others: seq<string>)
    requires LoweredKeywords(words) == LoweredKeywords(others)
    ensures CountFlagged(sentences, words) == CountFlagged(sentences, others)
  {
    if sentences != [] {
      var n := |sentences| - 1;
      SameKeywordsSameCount(sentences[..n], words, others);
      SameKeywordsSameFlag(sentences[n], words, others);
    }
  }

  /** Sentences that are equal up to case are flagged alike. */
  lemma {:induction false} CountFlaggedUpToCase(sentences: seq<string>, others: seq<string>, words: seq<string>)
    requires |sentences| == |others|
    requires forall i :: 0 <= i < |sentences| ==> Lower(sentences[i]) == Lower(others[i])
    ensures CountFlagged(sentences, words) == CountFlagged(others, words)
  {
    if sentences != [] {
      var n := |sentences| - 1;
      CountFlaggedUpToCase(sentences[..n], others[..n], words);
      assert Flagged(sentences[n], words) == Flagged(others[n], words) by {
        assert forall w :: Matches(sentences[n], w) == Matches(others[n], w);
      }
    }
  }

  // ---------------------------------------------------------------------
  // The score of a transcript
  // ---------------------------------------------------------------------

  /** A transcript scores 100 percent exactly when every sentence is flagged,
      and 0 percent exactly when none is. */
  lemma FullAndZeroScore(text: string, words: seq<string>)
    ensures var sentences := Split(text, SentenceSeparator);
            Percentage(CountFlagged(sentences, words), |sentences|) == 100.0
            <==> forall i :: 0 <= i < |sentences| ==> Flagged(sentences[i], words)
    ensures var sentences := Split(text, SentenceSeparator);
            Percentage(CountFlagged(sentences, words), |sentences|) == 0.0
            <==> forall i :: 0 <= i < |sentences| ==> !Flagged(sentences[i], words)
  {
    var sentences := Split(text, SentenceSeparator);
    var count := CountFlagged(sentences, words);
    AllFlaggedIff(sentences, words);
    CountFlaggedIsCardinality(sentences, words);
    var flagged := FlaggedIndices(sentences, words);
    if count == 0 {
      forall i | 0 <= i < |sentences| ensures !Flagged(sentences[i], words) {
        assert i as nat !in flagged;
      }
    } else {
      var i :| i in flagged;
      assert Flagged(sentences[i], words);
    }
  }

  /** Without keywords a transcript scores 0 of its sentences, 0 percent. */
  lemma NoKeywordsScoreZero(text: string)
    ensures CountFlagged(Split(text, SentenceSeparator), []) == 0
    ensures Percentage(0, |Split(text, SentenceSeparator)|) == 0.0
  {
    NoKeywordsNoneFlagged(Split(text, SentenceSeparator));
  }

  /** Transcripts that differ only in case score the same. */
  lemma CaseInsensitiveScore(text: string, other: string, words: seq<string>)
    requires Lower(text) == Lower(other)
    ensures |Split(text, SentenceSeparator)| == |Split(other, SentenceSeparator)|
    ensures CountFlagged(Split(text, SentenceSeparator), words)
         == CountFlagged(Split(other, SentenceSeparator), words)
  {
    SplitLower(text, SentenceSeparator);
    SplitLower(other, SentenceSeparator);
    CountFlaggedUpToCase(Split(text, SentenceSeparator), Split(other, SentenceSeparator), words);
  }

  // ---------------------------------------------------------------------
  // Worked examples
  // ---------------------------------------------------------------------

  /** The empty transcript is one empty sentence; a final '.' leaves an
      empty last sentence. */
  lemma SplitEdgeCases()
    ensures Split("", SentenceSeparator) == [""]
    ensures Split("Hi.", SentenceSeparator) == ["Hi", ""]
  {
    assert Split(".", SentenceSeparator) == ["", ""] by {
      SplitCons('.', "", SentenceSeparator);
      assert "." == ['.'] + "";
    }
    assert Split("i.", SentenceSeparator) == ["i", ""] by {
      SplitCons('i', ".", SentenceSeparator);
      assert "i." == ['i'] + ".";
      assert ['i'] + "" == "i";
      assert ["", ""][1..] == [""];
    }
    assert Split("Hi.", SentenceSeparator) == ["Hi", ""] by {
      SplitCons('H', "i.", SentenceSeparator);
      assert "Hi." == ['H'] + "i.";
      assert ['H'] + "i" == "Hi";
      assert ["i", ""][1..] == [""];
    }
  }

  /** Matching ignores case: "URGENT" is flagged by the keyword "urgent". */
  lemma CaseInsensitiveExample()
    ensures Matches("URGENT", "urgent")
  {
    var hay, needle := Lower("URGENT"), Lower("urgent");
    assert hay == "urgent" by {
      assert forall i :: 0 <= i < 6 ==> hay[i] == LowerChar("URGENT"[i]);
    }
    assert needle == "urgent" by {
      assert forall i :: 0 <= i < 6 ==> needle[i] == LowerChar("urgent"[i]);
    }
    assert StartsWith(hay, needle);
  }

  /** Matching is plain substring search: the keyword "win" flags a
      sentence that only holds the word "winner". */
  lemma SubstringExample()
    ensures Matches("The winner is here", "win")
  {
    var sentence := "The winner is here";
    var needle := Lower("win");
    assert needle == "win" by {
      assert forall i :: 0 <= i < 3 ==> needle[i] == LowerChar("win"[i]);
    }
    assert sentence[4..7] == "win";
    LowerSlice(sentence, 4, 7);
    assert OccursAt(Lower(sentence), needle, 4);
    ContainsIff(Lower(sentence), needle);
  }

  /** Neither "verify" nor "urgent" is in a sentence that holds neither a
      'v' nor a 'u' in either case. */
  lemma NoExampleKeyword(sentence: string)
    requires 'v' !in sentence && 'V' !in sentence
    requires 'u' !in sentence && 'U' !in sentence
    ensures !Flagged(sentence, ["verify", "urgent"])
  {
    var hay := Lower(sentence);
    LowerKeepsAbsence(sentence, 'v');
    LowerKeepsAbsence(sentence, 'u');
    forall w | w in ["verify", "urgent"]
      ensures !Matches(sentence, w)
    {
      assert Lower(w)[0] == LowerChar(w[0]);
      ContainsFirstCharacter(hay, Lower(w));
    }
  }

  // The example lemmas below take the transcript as a parameter fixed by a
  // `requires` instead of naming the literal in their contracts: with the
  // literal in scope the verifier unfolds `Split` and `Lower` over it in
  // every context, which makes the proofs far more expensive.

  /** The example transcript splits into three sentences and the empty
      text after its final '.'. */
  lemma ExampleSplit(text: string)
    requires text == "Please verify your account" + "." + " This is a normal sentence" + "."
                    + " Urgent action needed" + "."
    ensures Split(text, SentenceSeparator)
         == ["Please verify your account", " This is a normal sentence", " Urgent action needed", ""]
  {
    var s0, s1, s2, s3 := "Please verify your account", " This is a normal sentence", " Urgent action needed", "";
    var sentences := [s0, s1, s2, s3];
    assert Join(sentences, '.') == text by {
      assert Join([s2, s3], '.') == s2 + ['.'] + s3 by {
        assert [s2, s3][1..] == [s3];
      }
      assert Join([s1, s2, s3], '.') == s1 + ['.'] + (s2 + ['.'] + s3) by {
        assert [s1, s2, s3][1..] == [s2, s3];
      }
      assert Join(sentences, '.') == s0 + ['.'] + (s1 + ['.'] + (s2 + ['.'] + s3)) by {
        assert sentences[1..] == [s1, s2, s3];
      }
      assert s2 + ['.'] + s3 == s2 + ".";
    }
    assert forall k :: 0 <= k < |sentences| ==> '.' !in sentences[k] by {
      assert '.' !in s0 && '.' !in s1 && '.' !in s2 && '.' !in s3;
    }
    SplitJoin(sentences, SentenceSeparator);
  }

  /** "verify" stands at index 7 of the first example sentence. */
  lemma ExampleFirstSentence(text: string)
    requires text == "Please verify your account" + "." + " This is a normal sentence" + "."
                    + " Urgent action needed" + "."
    ensures |Split(text, SentenceSeparator)| == 4
    ensures |Split(text, SentenceSeparator)[0]| >= 13 && Split(text, SentenceSeparator)[0][7..13] == "verify"
  {
    ExampleSplit(text);
  }

  /** The second example sentence holds no 'v' and no 'u' in either case. */
  lemma ExampleSecondSentence(text: string)
    requires text == "Please verify your account" + "." + " This is a normal sentence" + "."
                    + " Urgent action needed" + "."
    ensures |Split(text, SentenceSeparator)| == 4
    ensures var sentence := Split(text, SentenceSeparator)[1];
            'v' !in sentence && 'V' !in sentence && 'u' !in sentence && 'U' !in sentence
  {
    ExampleSplit(text);
  }

  /** "Urgent" stands at index 1 of the third example sentence, and the
      last one is empty. */
  lemma ExampleThirdAndLastSentence(text: string)
    requires text == "Please verify your account" + "." + " This is a normal sentence" + "."
                    + " Urgent action needed" + "."
    ensures |Split(text, SentenceSeparator)| == 4
    ensures |Split(text, SentenceSeparator)[2]| >= 7 && Split(text, SentenceSeparator)[2][1..7] == "Urgent"
    ensures Split(text, SentenceSeparator)[3] == ""
  {
    ExampleSplit(text);
  }

  /** In four sentences shaped like the example's, with the example's
      keywords, the first and third sentences are flagged and the other two
      are not. */
  lemma ExampleFlags(sentences: seq<string>, words: seq<string>)
    requires words == ["verify", "urgent"]
    requires |sentences| == 4
    requires |sentences[0]| >= 13 && sentences[0][7..13] == "verify"
    requires 'v' !in sentences[1] && 'V' !in sentences[1] && 'u' !in sentences[1] && 'U' !in sentences[1]
    requires |sentences[2]| >= 7 && sentences[2][1..7] == "Urgent"
    requires sentences[3] == ""
    ensures Flagged(sentences[0], words) && !Flagged(sentences[1], words)
    ensures Flagged(sentences[2], words) && !Flagged(sentences[3], words)
  {
    assert Flagged(sentences[0], words) by {
      assert KeywordAt(sentences[0], words[0], 7);
      MatchesIff(sentences[0], words[0]);
    }
    assert Flagged(sentences[2], words) by {
      LowerEqual(sentences[2][1..7], words[1]);
      assert KeywordAt(sentences[2], words[1], 1);
      MatchesIff(sentences[2], words[1]);
    }
    NoExampleKeyword(sentences[1]);
    NoExampleKeyword(sentences[3]);
  }

  /** The count over four sentences, sentence by sentence. */
  lemma CountFourSentences(sentences: seq<string>, words: seq<string>)
    requires |sentences| == 4
    ensures CountFlagged(sentences, words)
         == (if Flagged(sentences[0], words) then 1 else 0) + (if Flagged(sentences[1], words) then 1 else 0)
          + (if Flagged(sentences[2], words) then 1 else 0) + (if Flagged(sentences[3], words) then 1 else 0)
  {
    var f := (k: nat) requires k < 4 => if Flagged(sentences[k], words) then 1 else 0;
    assert sentences[..1][..0] == [] && sentences[..1][0] == sentences[0];
    assert CountFlagged(sentences[..1], words) == f(0);
    assert sentences[..2][..1] == sentences[..1] && sentences[..2][1] == sentences[1];
    assert CountFlagged(sentences[..2], words) == f(0) + f(1);
    assert sentences[..3][..2] == sentences[..2] && sentences[..3][2] == sentences[2];
    assert CountFlagged(sentences[..3], words) == f(0) + f(1) + f(2);
  }

  /**
   The transcript "Please verify your account. This is a normal sentence.
   Urgent action needed." with the keywords "verify" and "urgent" has four
   sentences (the last one empty, after the final '.'), two of them
   flagged, and scores 50 percent.
   */
  lemma WorkedExample(text: string, words: seq<string>)
    requires text == "Please verify your account" + "." + " This is a normal sentence" + "."
                    + " Urgent action needed" + "."
    requires words == ["verify", "urgent"]
    ensures |Split(text, SentenceSeparator)| == 4
    ensures CountFlagged(Split(text, SentenceSeparator), words) == 2
    ensures Percentage(CountFlagged(Split(text, SentenceSeparator), words), |Split(text, SentenceSeparator)|) == 50.0
  {
    ExampleFirstSentence(text);
    ExampleSecondSentence(text);
    ExampleThirdAndLastSentence(text);
    ExampleFlags(Split(text, SentenceSeparator), words);
    CountFourSentences(Split(text, SentenceSeparator), words);
  }
}
