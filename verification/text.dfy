/** The string operations job.py uses: `str.lower`, the `in` substring
    test, and `str.replace` of a single character. */
module Text {

  /** Lower-cases one ASCII letter; every other character is kept. */
  function LowerChar(c: char): char
  {
    if 'A' <= c <= 'Z' then (c as int + 32) as char else c
  }

  predicate IsUpper(c: char)
  {
    'A' <= c <= 'Z'
  }

  /** `s.lower()`, restricted to ASCII case mapping: no upper-case letter
      is left, each upper-case letter becomes the lower-case letter at the
      same place in the alphabet, and every other character is kept. */
  function Lower(s: string): (r: string)
    ensures |r| == |s|
    ensures forall i :: 0 <= i < |s| ==> !IsUpper(r[i])
    ensures forall i :: 0 <= i < |s| && !IsUpper(s[i]) ==> r[i] == s[i]
    ensures forall i :: 0 <= i < |s| && IsUpper(s[i]) ==>
      'a' <= r[i] <= 'z' && r[i] as int - 'a' as int == s[i] as int - 'A' as int
  {
    seq(|s|, i requires 0 <= i < |s| => LowerChar(s[i]))
  }

  /** Lower-casing works character by character, so it distributes over
      concatenation. */
  lemma LowerConcat(a: string, b: string)
    ensures Lower(a + b) == Lower(a) + Lower(b)
  {
    assert forall i :: 0 <= i < |a + b| ==> Lower(a + b)[i] == (Lower(a) + Lower(b))[i];
  }

  /** Lower-casing leaves no upper-case letter behind and is idempotent. */
  lemma LowerIsLower(s: string)
    ensures forall i :: 0 <= i < |s| ==> !IsUpper(Lower(s)[i])
    ensures Lower(Lower(s)) == Lower(s)
  {
  }

  /** `k` occurs in `text` starting at position `i`. */
  predicate OccursAt(k: string, text: string, i: nat)
  {
    i + |k| <= |text| && text[i..i + |k|] == k
  }

  /** `k` occurs in `text` as a contiguous substring. */
  ghost predicate Occurs(k: string, text: string)
  {
    exists i: nat :: OccursAt(k, text, i)
  }

  /** Whatever surrounds a string, it occurs in the result. */
  lemma OccursInConcat(a: string, k: string, b: string)
    ensures Occurs(k, a + k + b)
  {
    assert (a + k + b)[|a|..|a| + |k|] == k;
    assert OccursAt(k, a + k + b, |a|);
  }

  /** Dropping the first character of `text` loses no occurrence of `k`
      when `k` does not start there. */
  lemma {:induction false} OccursStep(k: string, text: string)
    requires |k| <= |text| && text[..|k|] != k
    ensures Occurs(k, text) <==> Occurs(k, text[1..])
  {
    if Occurs(k, text) {
      var i: nat :| OccursAt(k, text, i);
      assert i != 0;
      assert text[1..][i - 1..i - 1 + |k|] == text[i..i + |k|];
      assert OccursAt(k, text[1..], i - 1);
    }
    if Occurs(k, text[1..]) {
      var i: nat :| OccursAt(k, text[1..], i);
      assert text[i + 1..i + 1 + |k|] == text[1..][i..i + |k|];
      assert OccursAt(k, text, i + 1);
    }
  }

  /** Python's `k in text` for strings: a left-to-right scan. */
  function Contains(text: string, k: string): (r: bool)
    ensures r <==> Occurs(k, text)
    decreases |text|
  {
    if |k| > |text| then false
    else if text[..|k|] == k then assert OccursAt(k, text, 0); true
    else OccursStep(k, text); Contains(text[1..], k)
  }

  /** `any(k in text for k in keywords)`. */
  function AnyOccurs(keywords: seq<string>, text: string): (r: bool)
    ensures r <==> exists i :: 0 <= i < |keywords| && Occurs(keywords[i], text)
  {
    if |keywords| == 0 then false
    else if Contains(text, keywords[0]) then true
    else
      assert forall i :: 1 <= i < |keywords| ==> keywords[i] == keywords[1..][i - 1];
      AnyOccurs(keywords[1..], text)
  }

  /** A keyword with an upper-case letter never occurs in lower-cased text:
      matching against `lower()` text only works for lower-case keywords. */
  lemma UpperKeywordNeverOccurs(k: string, s: string, j: nat)
    requires j < |k| && IsUpper(k[j])
    ensures !Occurs(k, Lower(s))
  {
    LowerIsLower(s);
    forall i: nat | i + |k| <= |Lower(s)|
      ensures !OccursAt(k, Lower(s), i)
    {
      assert Lower(s)[i..i + |k|][j] == Lower(s)[i + j];
    }
  }

  /** `s.replace(c, rep)` for a single character `c`. */
  function ReplaceChar(s: string, c: char, rep: string): (r: string)
    ensures c !in rep ==> c !in r
    ensures c !in s ==> r == s
  {
    if |s| == 0 then ""
    else (if s[0] == c then rep else [s[0]]) + ReplaceChar(s[1..], c, rep)
  }

  /** Replacing works piece by piece; with `ReplaceCharSingle` and the
      identity on strings without `c`, this fixes the result completely. */
  lemma {:induction false} ReplaceCharConcat(a: string, b: string, c: char, rep: string)
    ensures ReplaceChar(a + b, c, rep) == ReplaceChar(a, c, rep) + ReplaceChar(b, c, rep)
  {
    if |a| == 0 {
      assert a + b == b;
    } else {
      var head := if a[0] == c then rep else [a[0]];
      assert (a + b)[0] == a[0];
      assert (a + b)[1..] == a[1..] + b;
      ReplaceCharConcat(a[1..], b, c, rep);
      calc {
        ReplaceChar(a + b, c, rep);
        head + ReplaceChar(a[1..] + b, c, rep);
        head + (ReplaceChar(a[1..], c, rep) + ReplaceChar(b, c, rep));
        (head + ReplaceChar(a[1..], c, rep)) + ReplaceChar(b, c, rep);
      }
    }
  }

  /** A lone `c` becomes `rep`. */
  lemma ReplaceCharSingle(c: char, rep: string)
    ensures ReplaceChar([c], c, rep) == rep
  {
    assert ReplaceChar([c], c, rep) == rep + ReplaceChar([], c, rep);
  }
}
