/**
 * Ordinal string operations the list query relies on: the substring test
 * behind the name search and the lexicographic order behind the sorts.
 */
module Strings {

  /** `s` occurs in `text` starting at position `i`. */
  ghost predicate OccursAt(text: string, s: string, i: int) {
    0 <= i && i + |s| <= |text| && text[i..i + |s|] == s
  }

  /** Case-sensitive substring test, as `text.Contains(s)`. */
  function Contains(text: string, s: string): (r: bool)
    ensures r <==> exists i :: OccursAt(text, s, i)
    decreases |text|
  {
    if s <= text then
      assert OccursAt(text, s, 0);
      true
    else if text == [] then
      false
    else
      var r := Contains(text[1..], s);
      assert r ==> exists i :: OccursAt(text, s, i) by {
        if r {
          var i :| OccursAt(text[1..], s, i);
          assert text[i + 1..i + 1 + |s|] == text[1..][i..i + |s|];
          assert OccursAt(text, s, i + 1);
        }
      }
      assert (exists i :: OccursAt(text, s, i)) ==> r by {
        if i :| OccursAt(text, s, i) {
          assert i != 0;
          assert text[1..][i - 1..i - 1 + |s|] == text[i..i + |s|];
          assert OccursAt(text[1..], s, i - 1);
        }
      }
      r
  }

  /** Ordinal lexicographic order: `a` sorts at or before `b`. */
  predicate StrLe(a: string, b: string) {
    a == [] || (b != [] && (a[0] < b[0] || (a[0] == b[0] && StrLe(a[1..], b[1..]))))
  }

  lemma {:induction false} StrLeTotal(a: string, b: string)
    ensures StrLe(a, b) || StrLe(b, a)
  {
    if a != [] && b != [] && a[0] == b[0] {
      StrLeTotal(a[1..], b[1..]);
    }
  }

  lemma {:induction false} StrLeTransitive(a: string, b: string, c: string)
    requires StrLe(a, b) && StrLe(b, c)
    ensures StrLe(a, c)
  {
    if a != [] && a[0] == b[0] && b[0] == c[0] {
      StrLeTransitive(a[1..], b[1..], c[1..]);
    }
  }

  lemma {:induction false} StrLeAntisymmetric(a: string, b: string)
    requires StrLe(a, b) && StrLe(b, a)
    ensures a == b
  {
    if a != [] && b != [] {
      StrLeAntisymmetric(a[1..], b[1..]);
      assert a == [a[0]] + a[1..] && b == [b[0]] + b[1..];
    }
  }
}
