/** The search filter `Question.question.ilike('%term%')`, as a case-insensitive substring test
    on ASCII letters. */
module Text {

  /** ASCII lower-casing; every other character is kept. */
  function LowerChar(c: char): char
  {
    if 'A' <= c <= 'Z' then (c as int + 32) as char else c
  }

  function Lower(s: string): string
  {
    seq(|s|, i requires 0 <= i < |s| => LowerChar(s[i]))
  }

  /** `pattern` occurs in `text` at position `i`. */
  predicate OccursAt(pattern: string, text: string, i: nat)
  {
    i + |pattern| <= |text| && text[i..i + |pattern|] == pattern
  }

  predicate IsSubstring(pattern: string, text: string)
  {
    exists i: nat | i <= |text| :: OccursAt(pattern, text, i)
  }

  /** `text ILIKE '%term%'`. */
  predicate ContainsIgnoreCase(text: string, term: string)
  {
    IsSubstring(Lower(term), Lower(text))
  }

  lemma LowerAppend(a: string, b: string)
    ensures Lower(a + b) == Lower(a) + Lower(b)
  {
    forall i | 0 <= i < |a + b| ensures Lower(a + b)[i] == (Lower(a) + Lower(b))[i] {
      if i < |a| { assert (a + b)[i] == a[i]; } else { assert (a + b)[i] == b[i - |a|]; }
    }
  }

  lemma LowerCharIdempotent(c: char)
    ensures LowerChar(LowerChar(c)) == LowerChar(c)
  {
  }

  /** Lower-casing twice is lower-casing once, so the test ignores the case of both sides. */
  lemma LowerIdempotent(s: string)
    ensures Lower(Lower(s)) == Lower(s)
  {
    forall i | 0 <= i < |s| ensures Lower(Lower(s))[i] == Lower(s)[i] {
      LowerCharIdempotent(s[i]);
    }
  }

  lemma ContainsIgnoringCaseOfTerm(text: string, term: string)
    ensures ContainsIgnoreCase(text, term) <==> ContainsIgnoreCase(text, Lower(term))
    ensures ContainsIgnoreCase(text, term) <==> ContainsIgnoreCase(Lower(text), term)
  {
    LowerIdempotent(term);
    LowerIdempotent(text);
  }

  /** Any text containing the term verbatim matches, whatever surrounds it. */
  lemma {:induction false} ContainsInfix(before: string, term: string, after: string)
    ensures ContainsIgnoreCase(before + term + after, term)
  {
    LowerAppend(before + term, after);
    LowerAppend(before, term);
    var text := Lower(before + term + after);
    var i := |before|;
    assert text == Lower(before) + Lower(term) + Lower(after);
    assert text[i..i + |term|] == Lower(term);
    assert OccursAt(Lower(term), text, i);
  }
}
