/** The text side of the OCR flow: the recognised text is cleaned into a word
    list, and one candidate name is picked from it (a word of the priority
    list; else the word before a dosage such as "650mg", with the word that
    follows its first occurrence; else the first word). */
module LabelScan {
  import opened Wrappers
  import opened Seqs
  import opened Text

  /** `medicinePriorityList`. */
  const PriorityList: seq<string> := [
    "Paracetamol", "Ibuprofen", "Cetirizine", "Amoxicillin", "Azithromycin",
    "Dolo", "Crocin", "Panadol", "Calpol", "Metformin",
    "Pantoprazole", "Omeprazole", "Cetrizine", "Aspirin", "Diclofenac",
    "Losartan", "Amlodipine", "Atorvastatin", "Levocetirizine", "Ranitidine"
  ]

  /** `ignoreWords`: packaging and unit words. */
  const IgnoreWords: seq<string> := [
    "Tablet", "Tablets", "Capsule", "Capsules", "Strip", "Syrup", "Injection",
    "Suspension", "Dose", "For", "Use", "Mg", "Ml", "Each", "Contains"
  ]

  // ---------------------------------------------------------------- words

  /** `replace(/[^A-Za-z0-9\s]/g, " ")`, one character at a time. */
  function SanitizeChar(c: char): char {
    if IsAlnum(c) || IsSpace(c) then c else ' '
  }

  function Sanitize(text: string): string {
    Map(text, SanitizeChar)
  }

  /** `s.split(/\s+/)`, with `cur` the piece read so far: each maximal run of
      whitespace separates two pieces, so whitespace at either end yields an
      empty first or last piece, and "" yields [""]. */
  function SplitFrom(s: string, cur: string): seq<string>
    decreases |s|
  {
    if s == [] then [cur]
    else if IsSpace(s[0]) then [cur] + SplitFrom(TrimStart(s), [])
    else SplitFrom(s[1..], cur + [s[0]])
  }

  function SplitOnSpaces(s: string): seq<string> {
    SplitFrom(s, [])
  }

  /** The pieces after `.split(/\s+/).map(w => w.trim())`. */
  function Tokens(text: string): seq<string> {
    Map(SplitOnSpaces(Sanitize(text)), Trim)
  }

  /** `w.length > 2 && w.length < 20`. */
  predicate HasKeptLength(w: string) {
    2 < |w| < 20
  }

  /** `w.charAt(0).toUpperCase() + w.slice(1).toLowerCase()`. */
  function Capitalize(w: string): string {
    if w == [] then [] else [UpperChar(w[0])] + Lower(w[1..])
  }

  /** `!ignoreWords.includes(w)`. */
  predicate NotIgnored(w: string) {
    w !in IgnoreWords
  }

  /** The `words` array of the OCR handler. */
  function Words(text: string): seq<string> {
    Filter(Map(Filter(Tokens(text), HasKeptLength), Capitalize), NotIgnored)
  }

  predicate IsWordChars(w: string) {
    forall i :: 0 <= i < |w| ==> IsAlnum(w[i])
  }

  /** First character not a lower-case letter, the rest not upper-case. */
  predicate IsCapitalized(w: string) {
    w != [] && !IsLower(w[0]) && forall i :: 1 <= i < |w| ==> !IsUpper(w[i])
  }

  lemma {:induction false} SplitPiecesAreWordChars(s: string, cur: string)
    requires forall i :: 0 <= i < |s| ==> IsAlnum(s[i]) || IsSpace(s[i])
    requires IsWordChars(cur)
    ensures forall p :: p in SplitFrom(s, cur) ==> IsWordChars(p)
    decreases |s|
  {
    if s == [] {
    } else if IsSpace(s[0]) {
      var t := TrimStart(s);
      assert forall i :: 0 <= i < |t| ==> t[i] == s[|s| - |t| + i];
      SplitPiecesAreWordChars(t, []);
    } else {
      SplitPiecesAreWordChars(s[1..], cur + [s[0]]);
    }
  }

  lemma CapitalizeShape(w: string)
    requires w != [] && IsWordChars(w)
    ensures |Capitalize(w)| == |w|
    ensures IsWordChars(Capitalize(w)) && IsCapitalized(Capitalize(w))
  {
    var c := Capitalize(w);
    forall i | 1 <= i < |w| ensures IsAlnum(c[i]) && !IsUpper(c[i]) {
      assert c[i] == LowerChar(w[i]);
    }
  }

  /** A word already in capitalised form is left as it is: the case
      normalisation is idempotent. */
  lemma CapitalizeCanonical(w: string)
    requires IsCapitalized(w)
    ensures Capitalize(w) == w
  {
    var c := Capitalize(w);
    assert c[0] == w[0];
    forall i | 1 <= i < |w| ensures c[i] == w[i] {
      assert c[i] == LowerChar(w[i]);
    }
  }

  /** Every token is made of letters and digits only. */
  lemma TokensAreWordChars(text: string)
    ensures forall i :: 0 <= i < |Tokens(text)| ==> IsWordChars(Tokens(text)[i])
  {
    var s := Sanitize(text);
    SplitPiecesAreWordChars(s, []);
    var pieces := SplitOnSpaces(s);
    forall k | 0 <= k < |pieces| ensures Trim(pieces[k]) == pieces[k] && IsWordChars(pieces[k]) {
      assert pieces[k] in pieces;
      TrimOfTrimmed(pieces[k]);
    }
  }

  /** 3 to 19 letters and digits, capitalised. */
  predicate IsShapedWord(w: string) {
    3 <= |w| <= 19 && IsWordChars(w) && IsCapitalized(w)
  }

  /** A word of the final list: shaped, and not an ignored word. */
  predicate IsCleanWord(w: string) {
    IsShapedWord(w) && w !in IgnoreWords
  }

  lemma LengthFilterKeepsWordChars(toks: seq<string>)
    requires forall i :: 0 <= i < |toks| ==> IsWordChars(toks[i])
    ensures forall i :: 0 <= i < |Filter(toks, HasKeptLength)| ==>
      HasKeptLength(Filter(toks, HasKeptLength)[i]) && IsWordChars(Filter(toks, HasKeptLength)[i])
  {
    var kept := Filter(toks, HasKeptLength);
    forall i | 0 <= i < |kept| ensures HasKeptLength(kept[i]) && IsWordChars(kept[i]) {
      assert kept[i] in kept;
    }
  }

  lemma CapitalizedAreShaped(kept: seq<string>)
    requires forall i :: 0 <= i < |kept| ==> HasKeptLength(kept[i]) && IsWordChars(kept[i])
    ensures forall i :: 0 <= i < |Map(kept, Capitalize)| ==> IsShapedWord(Map(kept, Capitalize)[i])
  {
    forall i | 0 <= i < |kept| ensures IsShapedWord(Capitalize(kept[i])) {
      CapitalizeShape(kept[i]);
    }
  }

  lemma IgnoreFilterKeepsShape(caps: seq<string>)
    requires forall i :: 0 <= i < |caps| ==> IsShapedWord(caps[i])
    ensures forall i :: 0 <= i < |Filter(caps, NotIgnored)| ==> IsCleanWord(Filter(caps, NotIgnored)[i])
  {
    var words := Filter(caps, NotIgnored);
    forall i | 0 <= i < |words| ensures IsCleanWord(words[i]) {
      assert words[i] in words;
    }
  }

  /** What survives the clean-up: 3 to 19 ASCII letters and digits, first
      character capitalised and the rest lower-case, not an ignored word. */
  lemma WordsInvariant(text: string)
    ensures forall i :: 0 <= i < |Words(text)| ==> IsCleanWord(Words(text)[i])
  {
    var toks := Tokens(text);
    TokensAreWordChars(text);
    LengthFilterKeepsWordChars(toks);
    var kept := Filter(toks, HasKeptLength);
    CapitalizedAreShaped(kept);
    IgnoreFilterKeepsShape(Map(kept, Capitalize));
  }

  /** The words keep the order of the tokens they come from. */
  lemma WordsKeepSourceOrder(text: string)
    ensures IsSubsequence(Words(text), Map(Tokens(text), Capitalize))
  {
    var kept := Filter(Tokens(text), HasKeptLength);
    var caps := Map(kept, Capitalize);
    FilterIsSubsequence(Tokens(text), HasKeptLength);
    SubsequenceMap(kept, Tokens(text), Capitalize);
    FilterIsSubsequence(caps, NotIgnored);
    SubsequenceTransitive(Words(text), caps, Map(Tokens(text), Capitalize));
  }

  // ---------------------------------------------------------- candidate

  /** `/\d+mg/i.test(w)`: a digit immediately followed by "mg" in any case. */
  predicate HasDoseMarker(w: string)
    decreases |w|
  {
    |w| >= 3
    && ((IsDigit(w[0]) && LowerChar(w[1]) == 'm' && LowerChar(w[2]) == 'g')
        || HasDoseMarker(w[1..]))
  }

  ghost predicate DoseMarkerAt(w: string, k: int) {
    0 <= k && k + 2 < |w| && IsDigit(w[k]) && LowerChar(w[k + 1]) == 'm' && LowerChar(w[k + 2]) == 'g'
  }

  lemma {:induction false} DoseMarkerMeaning(w: string)
    ensures HasDoseMarker(w) <==> exists k :: DoseMarkerAt(w, k)
    decreases |w|
  {
    if HasDoseMarker(w) {
      if IsDigit(w[0]) && LowerChar(w[1]) == 'm' && LowerChar(w[2]) == 'g' {
        assert DoseMarkerAt(w, 0);
      } else {
        DoseMarkerMeaning(w[1..]);
        var k :| DoseMarkerAt(w[1..], k);
        assert DoseMarkerAt(w, k + 1);
      }
    }
    if k :| DoseMarkerAt(w, k) {
      if k > 0 {
        DoseMarkerMeaning(w[1..]);
        assert DoseMarkerAt(w[1..], k - 1);
      }
      assert HasDoseMarker(w);
    }
  }

  /** The test `words.find((w, i) => ...)` applies at index `i`: the next
      word (or "" past the end) carries a dosage marker. */
  predicate DoseFollows(words: seq<string>, i: nat) {
    i < |words| && HasDoseMarker(if i + 1 < |words| then words[i + 1] else "")
  }

  /** The first index from `i` on that passes that test. */
  function FirstDoseBase(words: seq<string>, i: nat): (r: Option<nat>)
    ensures r.Some? ==> i <= r.value < |words| && DoseFollows(words, r.value)
    ensures r.Some? ==> forall j :: i <= j < r.value ==> !DoseFollows(words, j)
    ensures r.None? ==> forall j :: i <= j < |words| ==> !DoseFollows(words, j)
    decreases |words| - i
  {
    if i >= |words| then None
    else if DoseFollows(words, i) then Some(i)
    else FirstDoseBase(words, i + 1)
  }

  predicate InPriorityList(w: string) {
    w in PriorityList
  }

  function EqualTo(w: string): string -> bool {
    x => x == w
  }

  /** `words.indexOf(w)`, None for -1. */
  function IndexOf(words: seq<string>, w: string): Option<nat> {
    FirstIndex(words, EqualTo(w))
  }

  /** `words[k]` is the first occurrence of `w`. */
  ghost predicate IsFirstOccurrence(words: seq<string>, w: string, k: int) {
    0 <= k < |words| && words[k] == w && forall j :: 0 <= j < k ==> words[j] != w
  }

  /** The candidate the OCR handler searches for, or None for "No valid
      medicine name detected". A word found by a rule counts only when it
      is truthy, that is non-empty; otherwise the next rule is tried. */
  function PickCandidate(words: seq<string>): (r: Option<string>)
    ensures r.Some? ==> r.value != [] && exists i :: 0 <= i < |words| && words[i] <= r.value
    ensures (forall i :: 0 <= i < |words| ==> words[i] != []) ==> (r.None? <==> words == [])
  {
    match FirstIndex(words, InPriorityList)
    case Some(i) => Some(words[i])
    case None =>
      var dosed := DoseCandidate(words);
      if dosed.Some? then dosed
      else if |words| > 0 && words[0] != [] then Some(words[0])
      else None
  }

  /** The second rule on its own: the first word followed by a dosage word,
      if it is truthy, joined to the word after its first occurrence (or to
      "" past the end). */
  function DoseCandidate(words: seq<string>): (r: Option<string>)
    ensures r.Some? ==> r.value != [] && exists i :: 0 <= i < |words| && words[i] <= r.value
  {
    match FirstDoseBase(words, 0)
    case None => None
    case Some(i) =>
      var base := words[i];
      var next := match IndexOf(words, base) case Some(j) => j + 1 case None => 0;
      if base == [] then None
      else
        var name := base + " " + (if next < |words| then words[next] else "");
        assert words[i] <= name;
        Some(name)
  }

  /** Rule 1: the first word of the priority list wins. */
  lemma CandidatePriority(words: seq<string>, i: nat)
    requires i < |words| && words[i] in PriorityList
    requires forall k :: 0 <= k < i ==> words[k] !in PriorityList
    ensures PickCandidate(words) == Some(words[i])
  {
    assert InPriorityList(words[i]);
  }

  /** Rule 2: with no priority word, the first word followed by a dosage
      word is joined to the word after its own first occurrence, which
      always exists. */
  lemma CandidateDose(words: seq<string>, i: nat, j: nat)
    requires forall k :: 0 <= k < |words| ==> words[k] !in PriorityList
    requires DoseFollows(words, i) && forall k :: 0 <= k < i ==> !DoseFollows(words, k)
    requires words[i] != []
    requires IsFirstOccurrence(words, words[i], j)
    ensures j <= i && j + 1 < |words|
    ensures PickCandidate(words) == Some(words[i] + " " + words[j + 1])
  {
    assert FirstIndex(words, InPriorityList).None?;
    assert FirstDoseBase(words, 0) == Some(i);
    assert EqualTo(words[i])(words[j]);
    assert IndexOf(words, words[i]) == Some(j);
  }

  /** When the base word has no earlier occurrence, the dosage word itself
      is the one appended. */
  lemma CandidateDoseAdjacent(words: seq<string>, i: nat)
    requires forall k :: 0 <= k < |words| ==> words[k] !in PriorityList
    requires DoseFollows(words, i) && forall k :: 0 <= k < i ==> !DoseFollows(words, k)
    requires words[i] != []
    requires forall k :: 0 <= k < i ==> words[k] != words[i]
    ensures i + 1 < |words| && HasDoseMarker(words[i + 1])
    ensures PickCandidate(words) == Some(words[i] + " " + words[i + 1])
  {
    assert !HasDoseMarker("");
    CandidateDose(words, i, i);
  }

  /** An empty word found by the dosage rule is falsy: the handler moves on
      to the first word. */
  lemma CandidateEmptyDoseBase(words: seq<string>, i: nat)
    requires forall k :: 0 <= k < |words| ==> words[k] !in PriorityList
    requires DoseFollows(words, i) && forall k :: 0 <= k < i ==> !DoseFollows(words, k)
    requires words[i] == []
    ensures PickCandidate(words) == if words[0] != [] then Some(words[0]) else None
  {
    assert FirstIndex(words, InPriorityList).None?;
    assert FirstDoseBase(words, 0) == Some(i);
  }

  /** Rule 3: otherwise the first word, when it is not empty. */
  lemma CandidateFallback(words: seq<string>)
    requires words != []
    requires forall k :: 0 <= k < |words| ==> words[k] !in PriorityList
    requires forall k :: 0 <= k < |words| ==> !DoseFollows(words, k)
    ensures PickCandidate(words) == if words[0] != [] then Some(words[0]) else None
  {
    assert FirstIndex(words, InPriorityList).None?;
    assert FirstDoseBase(words, 0).None?;
  }

  /** Because the base word is looked up with `indexOf`, a repeated base
      word takes the word after its first occurrence, not the dosage. */
  lemma CandidateRepeatedBase()
    ensures PickCandidate(["Abc", "Xyz", "Abc", "500mg"]) == Some("Abc Xyz")
  {
    var words := ["Abc", "Xyz", "Abc", "500mg"];
    RepeatedBaseMarkers();
    assert DoseFollows(words, 2) && !DoseFollows(words, 0) && !DoseFollows(words, 1);
    assert IsFirstOccurrence(words, words[2], 0);
    CandidateDose(words, 2, 0);
    assert words[2] + " " + words[1] == "Abc Xyz";
  }

  lemma RepeatedBaseMarkers()
    ensures HasDoseMarker("500mg") && !HasDoseMarker("Xyz") && !HasDoseMarker("Abc")
    ensures forall k :: 0 <= k < 4 ==> ["Abc", "Xyz", "Abc", "500mg"][k] !in PriorityList
  {
    assert HasDoseMarker("500mg"[1..]) by {
      assert "500mg"[1..][0] == '0' && "500mg"[1..][1..][0] == '0';
    }
  }

  // ------------------------------------------------------------- outcome

  /** How the OCR handler ends once the service has answered with `text`:
      "No readable text found", "No valid medicine name detected", or a
      search for the candidate. */
  datatype LabelReading = NoReadableText | NoValidName | Candidate(name: string)

  /** On the handler's own word list a candidate is found exactly when
      there are words, and it is at least as long as a kept word. */
  lemma PickFromWords(words: seq<string>)
    requires forall i :: 0 <= i < |words| ==> IsCleanWord(words[i])
    ensures PickCandidate(words).None? <==> words == []
    ensures PickCandidate(words).Some? ==> |PickCandidate(words).value| >= 3
  {
    assert forall i :: 0 <= i < |words| ==> words[i] != [];
    var p := PickCandidate(words);
    if p.Some? {
      var i :| 0 <= i < |words| && words[i] <= p.value;
      assert IsCleanWord(words[i]);
    }
  }

  function ReadLabel(text: string): (r: LabelReading)
    ensures r.NoReadableText? <==> Trim(text) == []
    ensures r.NoValidName? <==> Trim(text) != [] && Words(text) == []
    ensures r.Candidate? ==> |r.name| >= 3
  {
    if Trim(text) == [] then NoReadableText
    else
      var words := Words(text);
      WordsInvariant(text);
      PickFromWords(words);
      match PickCandidate(words)
      case Some(name) => Candidate(name)
      case None => NoValidName
  }
}
