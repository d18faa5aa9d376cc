/** Literal substring replacement on strings, with the semantics of Rust's
    `str::replace`: the occurrences of the pattern are found from left to
    right, do not overlap, and each is swapped for the replacement text. */
module Text {

  /** `t` occurs somewhere in `s` (as a contiguous run of characters). */
  predicate Contains(s: string, t: string)
    decreases |s|
  {
    t <= s || (s != [] && Contains(s[1..], t))
  }

  /** `s.replace(pat, rep)`. The pattern is never empty at any call site of
      the modelled code, and Rust gives the empty pattern a different,
      inserting meaning, so it is excluded here. */
  function Replace(s: string, pat: string, rep: string): (r: string)
    requires |pat| > 0
    ensures pat[0] !in s ==> r == s
    decreases |s|
  {
    if pat <= s then rep + Replace(s[|pat|..], pat, rep)
    else if s == [] then []
    else [s[0]] + Replace(s[1..], pat, rep)
  }

  /** Dropping a prefix of the left operand of a concatenation. */
  lemma DropConcat(a: string, b: string, n: nat)
    requires n <= |a|
    ensures (a + b)[n..] == a[n..] + b
  {
  }

  /** A prefix free of the pattern's first character is copied through
      untouched, and replacement continues on what follows it. */
  lemma {:induction false} ReplacePassThrough(a: string, b: string, pat: string, rep: string)
    requires |pat| > 0 && pat[0] !in a
    ensures Replace(a + b, pat, rep) == a + Replace(b, pat, rep)
    decreases |a|
  {
    if a != [] {
      assert !(pat <= a + b) by { assert (a + b)[0] == a[0]; }
      assert (a + b)[1..] == a[1..] + b;
      ReplacePassThrough(a[1..], b, pat, rep);
      calc {
        Replace(a + b, pat, rep);
        [a[0]] + Replace(a[1..] + b, pat, rep);
        [a[0]] + (a[1..] + Replace(b, pat, rep));
        { assert [a[0]] + a[1..] == a; }
        a + Replace(b, pat, rep);
      }
    } else {
      assert a + b == b;
    }
  }

  /** Replacing a pattern that does not occur leaves the string unchanged. */
  lemma {:induction false} ReplaceAbsent(s: string, pat: string, rep: string)
    requires |pat| > 0 && !Contains(s, pat)
    ensures Replace(s, pat, rep) == s
    decreases |s|
  {
    if s != [] {
      ReplaceAbsent(s[1..], pat, rep);
      assert [s[0]] + s[1..] == s;
    }
  }

  /** An occurrence of the pattern at the very start is replaced. */
  lemma ReplaceAtStart(b: string, pat: string, rep: string)
    requires |pat| > 0
    ensures Replace(pat + b, pat, rep) == rep + Replace(b, pat, rep)
  {
    assert pat <= pat + b;
    assert (pat + b)[|pat|..] == b;
  }

  /** Prepending text that lacks the first character of `t` neither creates
      nor destroys an occurrence of `t`. */
  lemma {:induction false} ContainsSkipsPrefix(a: string, b: string, t: string)
    requires |t| > 0 && t[0] !in a
    ensures Contains(a + b, t) <==> Contains(b, t)
    decreases |a|
  {
    if a != [] {
      assert !(t <= a + b) by { assert (a + b)[0] == a[0]; }
      assert (a + b)[1..] == a[1..] + b;
      ContainsSkipsPrefix(a[1..], b, t);
    } else {
      assert a + b == b;
    }
  }
}
