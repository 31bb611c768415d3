/** The two string operations the catalog search relies on: lowercasing and
    substring containment (Python's `str.lower` and `in` on strings). */
module Text {

  /** Lowercases the capitals of ASCII and of the Latin-1 supplement
      (U+00C0..U+00DE except the multiplication sign U+00D7), which is what
      `str.lower` does on those code points; every other character is kept. */
  function LowerChar(c: char): (r: char)
    ensures !('A' <= r <= 'Z') && !('À' <= r <= 'Þ' && r != '×')
    ensures r == c || r as int == c as int + 32
    ensures 'a' <= c <= 'z' ==> r == c
    ensures !('A' <= c <= 'Z' || ('À' <= c <= 'Þ' && c != '×')) ==> r == c
  {
    if 'A' <= c <= 'Z' || ('À' <= c <= 'Þ' && c != '×') then
      (c as int + 32) as char
    else
      c
  }

  function Lower(s: string): (r: string)
    ensures |r| == |s|
    ensures forall i :: 0 <= i < |s| ==> !('A' <= r[i] <= 'Z') && !('À' <= r[i] <= 'Þ' && r[i] != '×')
    ensures forall i :: 0 <= i < |s| ==> r[i] == s[i] || r[i] as int == s[i] as int + 32
    ensures forall i :: 0 <= i < |s| && !('A' <= s[i] <= 'Z' || ('À' <= s[i] <= 'Þ' && s[i] != '×')) ==> r[i] == s[i]
  {
    seq(|s|, i requires 0 <= i < |s| => LowerChar(s[i]))
  }

  /** Lowercasing a lowercased string changes nothing. */
  lemma LowerIdempotent(s: string)
    ensures Lower(Lower(s)) == Lower(s)
  {
    var r := Lower(s);
    forall i | 0 <= i < |r|
      ensures Lower(r)[i] == r[i]
    {
      assert LowerChar(r[i]) == r[i];
    }
  }

  /** `q` occurs in `s` starting at position `i`. */
  ghost predicate OccursAt(q: string, s: string, i: int)
  {
    0 <= i && i + |q| <= |s| && s[i..i + |q|] == q
  }

  lemma ShiftOccurrence(q: string, s: string)
    requires |s| > 0
    ensures forall i :: 0 <= i ==> (OccursAt(q, s[1..], i) <==> OccursAt(q, s, i + 1))
  {
    forall i | 0 <= i
      ensures OccursAt(q, s[1..], i) <==> OccursAt(q, s, i + 1)
    {
      if i + |q| <= |s| - 1 {
        assert s[1..][i..i + |q|] == s[i + 1..i + 1 + |q|];
      }
    }
  }

  /** Python's `q in s`: true exactly when `q` occurs somewhere in `s`. */
  function Contains(s: string, q: string): (r: bool)
    ensures r <==> exists i :: OccursAt(q, s, i)
    decreases |s|
  {
    if |q| > |s| then
      false
    else if s[..|q|] == q then
      assert OccursAt(q, s, 0);
      true
    else
      assert !OccursAt(q, s, 0);
      ShiftOccurrence(q, s);
      assert forall i :: OccursAt(q, s, i) ==> i == 0 || OccursAt(q, s[1..], i - 1);
      Contains(s[1..], q)
  }

  /** The empty query occurs in every string. */
  lemma EmptyOccursEverywhere(s: string)
    ensures Contains(s, "")
  {
    assert OccursAt("", s, 0);
  }
}
