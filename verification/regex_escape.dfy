/** `escapeRegex`: every regular-expression metacharacter of the user's
    query is prefixed with a backslash, so that the query can be built into
    a `RegExp` that matches it literally. */
module RegexEscape {
  import opened Seqs

  /** The character class `[.*+?^${}()|[\]\\]`. */
  predicate IsRegexSpecial(c: char) {
    c in ".*+?^${}()|[]\\"
  }

  /** The number of metacharacters in `s`. */
  function SpecialCount(s: string): nat {
    if s == [] then 0 else (if IsRegexSpecial(s[0]) then 1 else 0) + SpecialCount(s[1..])
  }

  /** `str.replace(/[.*+?^${}()|[\]\\]/g, "\\$&")`: one backslash is
      added per metacharacter. */
  function Escape(s: string): (r: string)
    ensures |r| == |s| + SpecialCount(s)
  {
    if s == [] then []
    else (if IsRegexSpecial(s[0]) then ['\\', s[0]] else [s[0]]) + Escape(s[1..])
  }

  /** One unit of a pattern as the regular-expression parser reads it: a
      character matched literally, or a metacharacter with a meaning of its
      own (a lone or class-forming backslash counts as one). */
  datatype PatternUnit = Literal(c: char) | Meta(c: char)

  function LiteralOf(c: char): PatternUnit {
    Literal(c)
  }

  /** How a pattern reads: a backslash before a metacharacter makes it
      literal, any other metacharacter is special, the rest is literal. */
  function Read(t: string): seq<PatternUnit>
    decreases |t|
  {
    if t == [] then []
    else if t[0] == '\\' && |t| >= 2 && IsRegexSpecial(t[1]) then [Literal(t[1])] + Read(t[2..])
    else if IsRegexSpecial(t[0]) then [Meta(t[0])] + Read(t[1..])
    else [Literal(t[0])] + Read(t[1..])
  }

  /** The escaped query reads as exactly its own characters, each one
      literal: the pattern has no metacharacter left. */
  lemma {:induction false} ReadEscape(s: string)
    ensures Read(Escape(s)) == Map(s, LiteralOf)
  {
    if s != [] {
      ReadEscape(s[1..]);
      var rest := Escape(s[1..]);
      if IsRegexSpecial(s[0]) {
        assert Escape(s) == ['\\', s[0]] + rest;
        assert (['\\', s[0]] + rest)[2..] == rest;
      } else {
        assert Escape(s) == [s[0]] + rest;
        assert ([s[0]] + rest)[1..] == rest;
      }
      assert Map(s, LiteralOf) == [LiteralOf(s[0])] + Map(s[1..], LiteralOf);
    }
  }

  /** Removing one backslash before each escaped character. */
  function Unescape(t: string): string
    decreases |t|
  {
    if t == [] then []
    else if t[0] == '\\' && |t| >= 2 then [t[1]] + Unescape(t[2..])
    else [t[0]] + Unescape(t[1..])
  }

  /** Escaping loses nothing: the query is recovered from its escaped form. */
  lemma {:induction false} UnescapeEscape(s: string)
    ensures Unescape(Escape(s)) == s
  {
    if s != [] {
      UnescapeEscape(s[1..]);
      var rest := Escape(s[1..]);
      if IsRegexSpecial(s[0]) {
        assert Escape(s) == ['\\', s[0]] + rest;
        assert (['\\', s[0]] + rest)[2..] == rest;
      } else {
        assert Escape(s) == [s[0]] + rest;
        assert ([s[0]] + rest)[1..] == rest;
        assert s[0] != '\\';
      }
      assert s == [s[0]] + s[1..];
    }
  }

  /** A query is used as it is exactly when it has no metacharacters. */
  lemma EscapePlain(s: string)
    ensures Escape(s) == s <==> forall i :: 0 <= i < |s| ==> !IsRegexSpecial(s[i])
  {
    SpecialCountZero(s);
    if forall i :: 0 <= i < |s| ==> !IsRegexSpecial(s[i]) {
      EscapeUnchanged(s);
    }
  }

  lemma {:induction false} SpecialCountZero(s: string)
    ensures SpecialCount(s) == 0 <==> forall i :: 0 <= i < |s| ==> !IsRegexSpecial(s[i])
  {
    if s != [] {
      SpecialCountZero(s[1..]);
      assert forall i :: 1 <= i < |s| ==> s[i] == s[1..][i - 1];
    }
  }

  lemma {:induction false} EscapeUnchanged(s: string)
    requires forall i :: 0 <= i < |s| ==> !IsRegexSpecial(s[i])
    ensures Escape(s) == s
  {
    if s != [] {
      EscapeUnchanged(s[1..]);
      assert s == [s[0]] + s[1..];
    }
  }
}
