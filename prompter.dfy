/**
  The selection prompter, `prompt_user_selection`: one answer per discovered
  path, in order, and the paths whose answer is `y` once surrounding
  whitespace is removed and the letter lowercased. The operator's answers are an
  input, one per prompt.
 */
module SelectionPrompter {
  import opened Text
  import opened Subsequences

  /** `response.strip().lower() == 'y'`. */
  predicate Accepts(response: String) {
    Lower(Strip(response)) == "y"
  }

  /** Position `i` holds a `y` or `Y` with nothing but whitespace around it. */
  ghost predicate PaddedY(response: String, i: int) {
    0 <= i < |response| && (response[i] == 'y' || response[i] == 'Y') &&
    AllSpace(response[..i]) && AllSpace(response[i + 1..])
  }

  /** Only `y` and `Y` lowercase to `y`. */
  lemma LowersToY(t: String)
    requires Lower(t) == "y"
    ensures t == "y" || t == "Y"
  {
    assert |Lower(t)| == |t| == 1;
    assert LowerChar(t[0]) == Lower(t)[0];
  }

  lemma AcceptedIsPaddedY(response: String) returns (i: nat)
    requires Accepts(response)
    ensures PaddedY(response, i)
  {
    var t := Strip(response);
    LowersToY(t);
    i := StripSlice(response);
    assert response[i..i + 1] == t;
  }

  lemma PaddedYIsAccepted(response: String, i: nat)
    requires PaddedY(response, i)
    ensures Accepts(response)
  {
    var a, m, b := response[..i], [response[i]], response[i + 1..];
    assert response == a + m + b;
    StripPadded(a, m, b);
    assert Lower(m) == [LowerChar(response[i])];
  }

  /** An answer is accepted exactly when it is a single `y` or `Y`, padded with whitespace. */
  lemma AcceptsIffPaddedY(response: String)
    ensures Accepts(response) <==> exists i :: PaddedY(response, i)
  {
    if Accepts(response) {
      var i := AcceptedIsPaddedY(response);
    }
    if i :| PaddedY(response, i) {
      PaddedYIsAccepted(response, i);
    }
  }

  /** `y`, `Y` and ` y ` are accepted. */
  lemma AcceptedExamples()
    ensures Accepts("y") && Accepts("Y") && Accepts(" y ")
  {
    var padded: String := " y ";
    assert padded[..1] == " " && padded[2..] == " ";
    PaddedYIsAccepted("y", 0);
    PaddedYIsAccepted("Y", 0);
    PaddedYIsAccepted(padded, 1);
  }

  lemma RejectsYes()
    ensures !Accepts("yes")
  {
    var yes: String := "yes";
    assert [] + yes + [] == yes;
    StripPadded([], yes, []);
    assert |Lower(yes)| == 3;
  }

  lemma RejectsN()
    ensures !Accepts("n")
  {
    if Accepts("n") {
      var i := AcceptedIsPaddedY("n");
    }
  }

  lemma RejectsEmpty()
    ensures !Accepts("")
  {
    if Accepts("") {
      var i := AcceptedIsPaddedY("");
    }
  }

  /** `yes`, `n` and the empty answer are rejected. */
  lemma RejectedExamples()
    ensures !Accepts("yes") && !Accepts("n") && !Accepts("")
  {
    RejectsYes();
    RejectsN();
    RejectsEmpty();
  }

  /** One accept-or-reject decision per answer. */
  function AcceptFlags(responses: seq<String>): (flags: seq<bool>)
    ensures |flags| == |responses|
  {
    seq(|responses|, k requires 0 <= k < |responses| => Accepts(responses[k]))
  }

  method PromptUserSelection(ebookPaths: seq<String>, responses: seq<String>)
    returns (selectedBooks: seq<String>)
    requires |responses| == |ebookPaths|
    ensures selectedBooks == Select(ebookPaths, AcceptFlags(responses))
  {
    selectedBooks := [];
    for i := 0 to |ebookPaths|
      invariant selectedBooks == Select(ebookPaths[..i], AcceptFlags(responses)[..i])
    {
      var bookPath := ebookPaths[i];
      var bookName := Basename(bookPath);  // the name the prompt shows
      var userInput := Lower(Strip(responses[i]));
      if userInput == "y" {
        selectedBooks := selectedBooks + [bookPath];
      }
      SelectSnoc(ebookPaths, AcceptFlags(responses), i);
    }
    assert ebookPaths[..|ebookPaths|] == ebookPaths;
    assert AcceptFlags(responses)[..|ebookPaths|] == AcceptFlags(responses);
  }

  /**
    The selection is the input read at increasing positions, and those
    positions are exactly the accepted answers; it is never longer than the
    input, and nothing discovered means nothing selected.
   */
  lemma SelectionIsAcceptedSubsequence(ebookPaths: seq<String>, responses: seq<String>)
    requires |responses| == |ebookPaths|
    ensures var flags := AcceptFlags(responses);
      SelectedAt(Select(ebookPaths, flags), ebookPaths, flags, KeptPositions(flags))
    ensures |Select(ebookPaths, AcceptFlags(responses))| <= |ebookPaths|
    ensures ebookPaths == [] ==> Select(ebookPaths, AcceptFlags(responses)) == []
  {
    SelectAtKeptPositions(ebookPaths, AcceptFlags(responses));
  }

  lemma AcceptFlagsOfThree(a: String, b: String, c: String)
    ensures AcceptFlags([a, b, c]) == [Accepts(a), Accepts(b), Accepts(c)]
  {
  }

  /** Answers `y`, `n`, `Y` to three discovered files select the first and the third. */
  lemma ThreeAnswerScenario(f1: String, f2: String, f3: String)
    ensures Select([f1, f2, f3], AcceptFlags(["y", "n", "Y"])) == [f1, f3]
  {
    AcceptedExamples();
    RejectedExamples();
    AcceptFlagsOfThree("y", "n", "Y");
    var s: seq<String>, k: seq<bool> := [f1, f2, f3], [true, false, true];
    SelectSnoc(s, k, 0);
    SelectSnoc(s, k, 1);
    SelectSnoc(s, k, 2);
    assert s[..3] == s && k[..3] == k;
    assert s[..0] == [] && k[..0] == [];
  }
}
