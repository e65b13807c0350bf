/** Worked label readings: recognised texts made of capitalised words
    separated by single spaces, and what the OCR handler does with them. */
module LabelScanExamples {
  import opened Wrappers
  import opened Seqs
  import opened Text
  import opened LabelScan

  /** `ws.join(" ")`. */
  function JoinSpaces(ws: seq<string>): string {
    if ws == [] then [] else if |ws| == 1 then ws[0] else ws[0] + " " + JoinSpaces(ws[1..])
  }

  predicate IsPlainWord(w: string) {
    w != [] && IsWordChars(w) && IsCapitalized(w)
  }

  lemma {:induction false} SplitWord(w: string, rest: string, cur: string)
    requires forall i :: 0 <= i < |w| ==> !IsSpace(w[i])
    ensures SplitFrom(w + rest, cur) == SplitFrom(rest, cur + w)
    decreases |w|
  {
    if w != [] {
      assert (w + rest)[1..] == w[1..] + rest;
      SplitWord(w[1..], rest, cur + [w[0]]);
      assert cur + [w[0]] + w[1..] == cur + w;
    } else {
      assert w + rest == rest && cur + w == cur;
    }
  }

  /** A word, a single space, then text starting with a non-space: the
      word is the first piece. */
  lemma SplitAfterWord(w: string, rest: string)
    requires forall i :: 0 <= i < |w| ==> !IsSpace(w[i])
    requires rest != [] && !IsSpace(rest[0])
    ensures SplitFrom(w + " " + rest, []) == [w] + SplitFrom(rest, [])
  {
    SplitWord(w, " " + rest, []);
    assert w + " " + rest == w + (" " + rest);
    assert [] + w == w;
    assert (" " + rest)[1..] == rest;
    assert TrimStart(" " + rest) == rest;
  }

  /** Splitting words joined by single spaces gives the words back. */
  lemma {:induction false} SplitJoined(ws: seq<string>)
    requires ws != []
    requires forall k, i :: 0 <= k < |ws| && 0 <= i < |ws[k]| ==> !IsSpace(ws[k][i])
    requires forall k :: 0 <= k < |ws| ==> ws[k] != []
    ensures SplitOnSpaces(JoinSpaces(ws)) == ws
  {
    if |ws| == 1 {
      SplitWord(ws[0], [], []);
      assert ws[0] + [] == ws[0] && [] + ws[0] == ws[0];
      assert ws == [ws[0]];
    } else {
      var rest := JoinSpaces(ws[1..]);
      SplitJoined(ws[1..]);
      JoinedStartsWithWord(ws[1..]);
      SplitAfterWord(ws[0], rest);
      assert ws == [ws[0]] + ws[1..];
    }
  }

  lemma JoinedStartsWithWord(ws: seq<string>)
    requires ws != [] && ws[0] != []
    ensures JoinSpaces(ws) != [] && JoinSpaces(ws)[0] == ws[0][0]
  {
  }

  lemma {:induction false} JoinedIsClean(ws: seq<string>)
    requires forall k :: 0 <= k < |ws| ==> IsPlainWord(ws[k])
    ensures forall i :: 0 <= i < |JoinSpaces(ws)| ==> IsAlnum(JoinSpaces(ws)[i]) || JoinSpaces(ws)[i] == ' '
  {
    if |ws| > 1 {
      JoinedIsClean(ws[1..]);
      var j := JoinSpaces(ws);
      var rest := JoinSpaces(ws[1..]);
      forall i | 0 <= i < |j| ensures IsAlnum(j[i]) || j[i] == ' ' {
        if i < |ws[0]| {
          assert j[i] == ws[0][i];
        } else if i > |ws[0]| {
          assert j[i] == rest[i - |ws[0]| - 1];
        }
      }
    }
  }

  /** Letters, digits and spaces pass the clean-up unchanged. */
  lemma SanitizeKeepsClean(s: string)
    requires forall i :: 0 <= i < |s| ==> IsAlnum(s[i]) || s[i] == ' '
    ensures Sanitize(s) == s
  {
  }

  /** The tokens of such a text are its words. */
  lemma TokensOfJoined(ws: seq<string>)
    requires ws != []
    requires forall k :: 0 <= k < |ws| ==> IsPlainWord(ws[k])
    ensures Tokens(JoinSpaces(ws)) == ws
  {
    var text := JoinSpaces(ws);
    JoinedIsClean(ws);
    SanitizeKeepsClean(text);
    forall k, i | 0 <= k < |ws| && 0 <= i < |ws[k]| ensures !IsSpace(ws[k][i]) {
      assert IsAlnum(ws[k][i]);
    }
    SplitJoined(ws);
    forall k | 0 <= k < |ws| ensures Trim(ws[k]) == ws[k] {
      TrimOfTrimmed(ws[k]);
    }
    MapFixes(ws, Trim);
  }

  /** For such a text the word list is the words themselves, less the ones
      of the wrong length and the ignored ones. */
  lemma WordsOfJoined(ws: seq<string>)
    requires ws != []
    requires forall k :: 0 <= k < |ws| ==> IsPlainWord(ws[k])
    ensures Words(JoinSpaces(ws)) == Filter(Filter(ws, HasKeptLength), NotIgnored)
  {
    TokensOfJoined(ws);
    CapitalizeKeepsPlain(ws);
  }

  lemma CapitalizeKeepsPlain(ws: seq<string>)
    requires forall k :: 0 <= k < |ws| ==> IsPlainWord(ws[k])
    ensures Map(Filter(ws, HasKeptLength), Capitalize) == Filter(ws, HasKeptLength)
  {
    var kept := Filter(ws, HasKeptLength);
    forall k | 0 <= k < |kept| ensures Capitalize(kept[k]) == kept[k] {
      assert kept[k] in ws;
      CapitalizeCanonical(kept[k]);
    }
    MapFixes(kept, Capitalize);
  }

  lemma TextIsReadable(ws: seq<string>)
    requires ws != []
    requires forall k :: 0 <= k < |ws| ==> IsPlainWord(ws[k])
    ensures Trim(JoinSpaces(ws)) != []
  {
    JoinedStartsWithWord(ws);
    TrimEmpty(JoinSpaces(ws));
    assert !IsSpace(JoinSpaces(ws)[0]);
  }

  /** Once the text is known to be readable and its words are known, the
      handler searches for the candidate picked from those words. */
  lemma ReadPicked(text: string, words: seq<string>, name: string)
    requires Trim(text) != [] && Words(text) == words
    requires PickCandidate(words) == Some(name)
    ensures ReadLabel(text) == Candidate(name)
  {
  }

  /** The length filter keeps tokens of three to nineteen characters: a
      two- and a twenty-character token go, a three- and a nineteen-character
      token stay. */
  lemma LengthFilterBounds()
    ensures Filter(["Ab", "Abc", "Abcdefghijklmnopqrs", "Abcdefghijklmnopqrst"], HasKeptLength)
      == ["Abc", "Abcdefghijklmnopqrs"]
  {
    assert |"Abcdefghijklmnopqrs"| == 19 && |"Abcdefghijklmnopqrst"| == 20;
  }

  /* Each example below is put together from small lemmas: facts about
     literal strings are cheap on their own and expensive together. */

  /** A priority-list name on a strip: "Mg" is too short and "Tablet" is an
      ignored word, so the words are Paracetamol and 500, and Paracetamol is
      in the priority list. */
  lemma ReadParacetamolStrip()
    ensures ReadLabel("Paracetamol 500 Mg Tablet") == Candidate("Paracetamol")
  {
    ParacetamolStripReadable();
    ParacetamolStripWords();
    ParacetamolStripPick();
    ReadPicked("Paracetamol 500 Mg Tablet", ["Paracetamol", "500"], "Paracetamol");
  }

  lemma ParacetamolStripWords()
    ensures Words("Paracetamol 500 Mg Tablet") == ["Paracetamol", "500"]
  {
    var ws := ["Paracetamol", "500", "Mg", "Tablet"];
    assert JoinSpaces(ws) == "Paracetamol 500 Mg Tablet";
    ParacetamolStripPlain();
    ParacetamolStripLengthFilter();
    ParacetamolStripIgnoreFilter();
    WordsOfJoined(ws);
  }

  lemma ParacetamolStripPlain()
    ensures forall k :: 0 <= k < 4 ==> IsPlainWord(["Paracetamol", "500", "Mg", "Tablet"][k])
  {
    assert IsPlainWord("Paracetamol") && IsPlainWord("500") && IsPlainWord("Mg") && IsPlainWord("Tablet");
  }

  lemma ParacetamolStripLengthFilter()
    ensures Filter(["Paracetamol", "500", "Mg", "Tablet"], HasKeptLength) == ["Paracetamol", "500", "Tablet"]
  {
  }

  lemma ParacetamolStripIgnoreFilter()
    ensures Filter(["Paracetamol", "500", "Tablet"], NotIgnored) == ["Paracetamol", "500"]
  {
    assert NotIgnored("Paracetamol") && NotIgnored("500") && !NotIgnored("Tablet");
  }

  lemma ParacetamolStripReadable()
    ensures Trim("Paracetamol 500 Mg Tablet") != []
  {
    var ws := ["Paracetamol", "500", "Mg", "Tablet"];
    assert JoinSpaces(ws) == "Paracetamol 500 Mg Tablet";
    TextIsReadable(ws);
  }

  lemma ParacetamolStripPick()
    ensures PickCandidate(["Paracetamol", "500"]) == Some("Paracetamol")
  {
    var words := ["Paracetamol", "500"];
    assert words[0] == PriorityList[0];
    CandidatePriority(words, 0);
  }

  /** A name outside the priority list followed by a dosage is read
      together with the dosage. */
  lemma ReadDosedName()
    ensures ReadLabel("Zerodol 650mg Suspension") == Candidate("Zerodol 650mg")
  {
    DosedNameReadable();
    DosedNameWords();
    DosedNamePick();
    ReadPicked("Zerodol 650mg Suspension", ["Zerodol", "650mg"], "Zerodol 650mg");
  }

  lemma DosedNameWords()
    ensures Words("Zerodol 650mg Suspension") == ["Zerodol", "650mg"]
  {
    var ws := ["Zerodol", "650mg", "Suspension"];
    assert JoinSpaces(ws) == "Zerodol 650mg Suspension";
    DosedNamePlain();
    DosedNameLengthFilter();
    DosedNameIgnoreFilter();
    WordsOfJoined(ws);
  }

  lemma DosedNamePlain()
    ensures forall k :: 0 <= k < 3 ==> IsPlainWord(["Zerodol", "650mg", "Suspension"][k])
  {
    assert IsPlainWord("Zerodol") && IsPlainWord("650mg") && IsPlainWord("Suspension");
  }

  lemma DosedNameLengthFilter()
    ensures Filter(["Zerodol", "650mg", "Suspension"], HasKeptLength) == ["Zerodol", "650mg", "Suspension"]
  {
  }

  lemma DosedNameIgnoreFilter()
    ensures Filter(["Zerodol", "650mg", "Suspension"], NotIgnored) == ["Zerodol", "650mg"]
  {
    assert NotIgnored("Zerodol") && NotIgnored("650mg") && !NotIgnored("Suspension");
  }

  lemma DosedNameReadable()
    ensures Trim("Zerodol 650mg Suspension") != []
  {
    var ws := ["Zerodol", "650mg", "Suspension"];
    assert JoinSpaces(ws) == "Zerodol 650mg Suspension";
    TextIsReadable(ws);
  }

  lemma DosedNamePick()
    ensures PickCandidate(["Zerodol", "650mg"]) == Some("Zerodol 650mg")
  {
    var words := ["Zerodol", "650mg"];
    DosedNameNoPriority();
    assert DoseFollows(words, 0);
    CandidateDoseAdjacent(words, 0);
    assert words[0] + " " + words[1] == "Zerodol 650mg";
  }

  lemma DosedNameNoPriority()
    ensures "Zerodol" !in PriorityList && "650mg" !in PriorityList
    ensures HasDoseMarker("650mg")
  {
  }

  /** Crocin is itself in the priority list, so the dosage rule is never
      reached for it. */
  lemma CrocinIsPriority()
    ensures PickCandidate(["Crocin", "650mg"]) == Some("Crocin")
  {
    var words := ["Crocin", "650mg"];
    assert words[0] == PriorityList[6];
    CandidatePriority(words, 0);
  }

  /** With neither rule applying, the first word is taken. */
  lemma ReadFirstWordFallback()
    ensures ReadLabel("Generic Brand") == Candidate("Generic")
  {
    FallbackReadable();
    FallbackWords();
    FallbackPick();
    ReadPicked("Generic Brand", ["Generic", "Brand"], "Generic");
  }

  lemma FallbackWords()
    ensures Words("Generic Brand") == ["Generic", "Brand"]
  {
    var ws := ["Generic", "Brand"];
    assert JoinSpaces(ws) == "Generic Brand";
    FallbackPlain();
    FallbackLengthFilter();
    FallbackIgnoreFilter();
    WordsOfJoined(ws);
  }

  lemma FallbackPlain()
    ensures forall k :: 0 <= k < 2 ==> IsPlainWord(["Generic", "Brand"][k])
  {
    assert IsPlainWord("Generic") && IsPlainWord("Brand");
  }

  lemma FallbackLengthFilter()
    ensures Filter(["Generic", "Brand"], HasKeptLength) == ["Generic", "Brand"]
  {
  }

  lemma FallbackIgnoreFilter()
    ensures Filter(["Generic", "Brand"], NotIgnored) == ["Generic", "Brand"]
  {
    assert NotIgnored("Generic") && NotIgnored("Brand");
  }

  lemma FallbackReadable()
    ensures Trim("Generic Brand") != []
  {
    var ws := ["Generic", "Brand"];
    assert JoinSpaces(ws) == "Generic Brand";
    TextIsReadable(ws);
  }

  lemma FallbackPick()
    ensures PickCandidate(["Generic", "Brand"]) == Some("Generic")
  {
    var words := ["Generic", "Brand"];
    FallbackNoRule();
    assert !DoseFollows(words, 0) && !DoseFollows(words, 1);
    CandidateFallback(words);
  }

  lemma FallbackNoRule()
    ensures "Generic" !in PriorityList && "Brand" !in PriorityList
    ensures !HasDoseMarker("Brand") && !HasDoseMarker("")
  {
  }

  /** Only packaging words: no name, so no search. */
  lemma ReadPackagingOnly()
    ensures ReadLabel("Tablet Strip Each") == NoValidName
  {
    PackagingReadable();
    PackagingWords();
  }

  lemma PackagingWords()
    ensures Words("Tablet Strip Each") == []
  {
    var ws := ["Tablet", "Strip", "Each"];
    assert JoinSpaces(ws) == "Tablet Strip Each";
    PackagingPlain();
    PackagingLengthFilter();
    PackagingIgnoreFilter();
    WordsOfJoined(ws);
  }

  lemma PackagingPlain()
    ensures forall k :: 0 <= k < 3 ==> IsPlainWord(["Tablet", "Strip", "Each"][k])
  {
    assert IsPlainWord("Tablet") && IsPlainWord("Strip") && IsPlainWord("Each");
  }

  lemma PackagingLengthFilter()
    ensures Filter(["Tablet", "Strip", "Each"], HasKeptLength) == ["Tablet", "Strip", "Each"]
  {
  }

  lemma PackagingIgnoreFilter()
    ensures Filter(["Tablet", "Strip", "Each"], NotIgnored) == []
  {
    assert !NotIgnored("Tablet") && !NotIgnored("Strip") && !NotIgnored("Each");
  }

  lemma PackagingReadable()
    ensures Trim("Tablet Strip Each") != []
  {
    var ws := ["Tablet", "Strip", "Each"];
    assert JoinSpaces(ws) == "Tablet Strip Each";
    TextIsReadable(ws);
  }
}
