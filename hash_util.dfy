/**
 * `hash.util.ts`: the anchor slug GitHub gives a heading, and the formatter
 * that leaves the title as it is.
 */
module HashUtil {

  /** The characters JavaScript's `\s` matches. */
  predicate IsWhiteSpace(c: char) {
    || c == '\t' || c == '\n' || c == '\U{0B}' || c == '\U{0C}' || c == '\r' || c == ' '
    || c == '\U{A0}' || c == '\U{1680}' || ('\U{2000}' <= c <= '\U{200A}')
    || c == '\U{2028}' || c == '\U{2029}' || c == '\U{202F}' || c == '\U{205F}'
    || c == '\U{3000}' || c == '\U{FEFF}'
  }

  /** The characters the slug drops: underscore, parentheses, full stop, ideographic comma (U+3001), asterisk. */
  predicate IsInvalid(c: char) {
    c == '_' || c == '(' || c == ')' || c == '.' || c == '\U{3001}' || c == '*'
  }

  function LowerChar(c: char): char {
    if 'A' <= c <= 'Z' then (c as int + 32) as char else c
  }

  /** `toLowerCase`, for the ASCII letters. */
  function ToLowerAscii(s: string): (r: string)
    ensures |r| == |s|
    ensures forall i :: 0 <= i < |s| ==> r[i] == LowerChar(s[i])
  {
    if |s| == 0 then "" else [LowerChar(s[0])] + ToLowerAscii(s[1..])
  }

  /** `replace(/\s/g, '-')`: every white-space character becomes one hyphen. */
  function ReplaceWhiteSpace(s: string): (r: string)
    ensures |r| == |s|
    ensures forall i :: 0 <= i < |s| ==> r[i] == if IsWhiteSpace(s[i]) then '-' else s[i]
  {
    if |s| == 0 then ""
    else [if IsWhiteSpace(s[0]) then '-' else s[0]] + ReplaceWhiteSpace(s[1..])
  }

  /** `replace(matchInvalidChar, '')`: the other characters, in order. */
  function RemoveInvalid(s: string): (r: string)
    ensures |r| <= |s|
    ensures forall c :: c in r <==> c in s && !IsInvalid(c)
  {
    if |s| == 0 then ""
    else (if IsInvalid(s[0]) then "" else [s[0]]) + RemoveInvalid(s[1..])
  }

  /** Removal works character by character: the kept characters stay in order. */
  lemma {:induction false} RemoveInvalidAppend(a: string, b: string)
    ensures RemoveInvalid(a + b) == RemoveInvalid(a) + RemoveInvalid(b)
  {
    if |a| == 0 {
      assert a + b == b;
    } else {
      assert (a + b)[1..] == a[1..] + b;
      RemoveInvalidAppend(a[1..], b);
    }
  }

  /** One character is dropped exactly when it is invalid. */
  lemma RemoveInvalidSingle(c: char)
    ensures RemoveInvalid([c]) == if IsInvalid(c) then "" else [c]
  {
    assert [c][1..] == "";
  }

  /** Every kept character occurs as often as in the input; the dropped ones not at all. */
  lemma {:induction false} RemoveInvalidCount(s: string, c: char)
    ensures multiset(RemoveInvalid(s))[c] == if IsInvalid(c) then 0 else multiset(s)[c]
  {
    if |s| > 0 {
      RemoveInvalidCount(s[1..], c);
      assert s == [s[0]] + s[1..];
      assert multiset(s) == multiset{s[0]} + multiset(s[1..]);
      var head := if IsInvalid(s[0]) then "" else [s[0]];
      assert multiset(head + RemoveInvalid(s[1..])) == multiset(head) + multiset(RemoveInvalid(s[1..]));
    }
  }

  /** `githubHashFormatter`: lower-case, white space to hyphens, then drop the invalid characters. */
  function GithubHashFormatter(title: string): (r: string)
    ensures |r| <= |title|
    ensures forall i :: 0 <= i < |r| ==> !IsWhiteSpace(r[i]) && !IsInvalid(r[i])
  {
    var r := RemoveInvalid(ReplaceWhiteSpace(ToLowerAscii(title)));
    assert forall i :: 0 <= i < |r| ==> r[i] in r;
    r
  }

  /** `defaultFormatter`. */
  function DefaultFormatter(title: string): (r: string)
    ensures r == title
  {
    title
  }

  // ---------------------------------------------------------------------
  // A one-pass reference

  /** What one character of the title becomes in the slug. */
  function SlugOf(c: char): string {
    if IsInvalid(c) then "" else if IsWhiteSpace(c) then "-" else [LowerChar(c)]
  }

  /** The slug built character by character. */
  function Slug(s: string): string {
    if |s| == 0 then "" else SlugOf(s[0]) + Slug(s[1..])
  }

  /** Neither lowering nor hyphenating creates or destroys an invalid character. */
  lemma PassesCommute(c: char)
    ensures IsInvalid(LowerChar(c)) == IsInvalid(c)
    ensures IsWhiteSpace(LowerChar(c)) == IsWhiteSpace(c)
    ensures IsWhiteSpace(c) ==> !IsInvalid(c)
  {
  }

  /** The three passes of `githubHashFormatter` amount to the one-pass slug. */
  lemma {:induction false} GithubHashFormatterIsSlug(s: string)
    ensures GithubHashFormatter(s) == Slug(s)
  {
    if |s| > 0 {
      GithubHashFormatterIsSlug(s[1..]);
      PassesCommute(s[0]);
      var lower := ToLowerAscii(s);
      assert lower[1..] == ToLowerAscii(s[1..]);
      var hyph := ReplaceWhiteSpace(lower);
      assert hyph[0] == (if IsWhiteSpace(s[0]) then '-' else LowerChar(s[0]));
      assert hyph[1..] == ReplaceWhiteSpace(lower[1..]);
      assert RemoveInvalid(hyph) == (if IsInvalid(hyph[0]) then "" else [hyph[0]]) + RemoveInvalid(hyph[1..]);
    }
  }

  lemma {:induction false} SlugAppend(a: string, b: string)
    ensures Slug(a + b) == Slug(a) + Slug(b)
  {
    if |a| == 0 {
      assert a + b == b;
    } else {
      assert (a + b)[0] == a[0] && (a + b)[1..] == a[1..] + b;
      SlugAppend(a[1..], b);
    }
  }

  /** Each character is slugged on its own: the slug of a concatenation is the concatenation of slugs. */
  lemma GithubHashFormatterAppend(a: string, b: string)
    ensures GithubHashFormatter(a + b) == GithubHashFormatter(a) + GithubHashFormatter(b)
  {
    GithubHashFormatterIsSlug(a + b);
    GithubHashFormatterIsSlug(a);
    GithubHashFormatterIsSlug(b);
    SlugAppend(a, b);
  }

  /**
   * Without characters to remove, the slug has the title's length, and each
   * white-space character becomes exactly one hyphen at its own position: runs
   * are not collapsed.
   */
  lemma {:induction false} HyphenPerWhiteSpace(s: string)
    requires forall i :: 0 <= i < |s| ==> !IsInvalid(s[i])
    ensures |GithubHashFormatter(s)| == |s|
    ensures forall i :: 0 <= i < |s| ==>
      GithubHashFormatter(s)[i] == if IsWhiteSpace(s[i]) then '-' else LowerChar(s[i])
  {
    GithubHashFormatterIsSlug(s);
    SlugNoInvalid(s);
  }

  lemma {:induction false} SlugNoInvalid(s: string)
    requires forall i :: 0 <= i < |s| ==> !IsInvalid(s[i])
    ensures |Slug(s)| == |s|
    ensures forall i :: 0 <= i < |s| ==> Slug(s)[i] == if IsWhiteSpace(s[i]) then '-' else LowerChar(s[i])
  {
    if |s| > 0 {
      SlugNoInvalid(s[1..]);
    }
  }

  /** A string the formatter has nothing to do on comes back unchanged. */
  lemma {:induction false} SlugOfSlugFree(s: string)
    requires forall i :: 0 <= i < |s| ==> !IsWhiteSpace(s[i]) && !IsInvalid(s[i]) && !('A' <= s[i] <= 'Z')
    ensures Slug(s) == s
  {
    if |s| > 0 {
      SlugOfSlugFree(s[1..]);
    }
  }

  /** Applying the formatter twice is the same as applying it once. */
  lemma GithubHashFormatterIdempotent(s: string)
    ensures GithubHashFormatter(GithubHashFormatter(s)) == GithubHashFormatter(s)
  {
    var r := GithubHashFormatter(s);
    GithubHashFormatterIsSlug(s);
    SlugIsLower(s);
    GithubHashFormatterIsSlug(r);
    SlugOfSlugFree(r);
  }

  /** The slug has no upper-case ASCII letter. */
  lemma {:induction false} SlugIsLower(s: string)
    ensures forall i :: 0 <= i < |Slug(s)| ==> !('A' <= Slug(s)[i] <= 'Z')
  {
    if |s| > 0 {
      SlugIsLower(s[1..]);
      var head := SlugOf(s[0]);
      assert forall i :: 0 <= i < |head| ==> !('A' <= head[i] <= 'Z');
    }
  }

  /** Hyphens are put in before characters are removed, so a removed character between spaces leaves two hyphens. */
  lemma HyphensBeforeRemoval()
    ensures GithubHashFormatter("a . b") == "a--b"
  {
    GithubHashFormatterIsSlug("a . b");
    SlugOfAPointB();
  }

  lemma SlugOfAPointB()
    ensures Slug("a . b") == "a--b"
  {
    SlugCons('a', " . b");
    SlugCons(' ', ". b");
    SlugCons('.', " b");
    SlugCons(' ', "b");
    SlugCons('b', "");
    assert "a" + ("-" + ("" + ("-" + ("b" + "")))) == "a--b";
  }

  /** Neither white space nor a character the slug drops. */
  predicate Word(x: string) {
    forall i :: 0 <= i < |x| ==> !IsWhiteSpace(x[i]) && !IsInvalid(x[i])
  }

  /** A word is only lower-cased. */
  lemma SlugOfWord(x: string)
    requires Word(x)
    ensures Slug(x) == ToLowerAscii(x)
  {
    SlugNoInvalid(x);
  }

  /** A word at the front is only lower-cased. */
  lemma SlugWordThen(x: string, t: string)
    requires Word(x)
    ensures Slug(x + t) == ToLowerAscii(x) + Slug(t)
  {
    SlugAppend(x, t);
    SlugOfWord(x);
  }

  /**
   * Each space becomes a hyphen and the parentheses disappear, so
   * `Hello World (test)` becomes `hello-world-test`.
   */
  lemma WordsWithParens(x: string, y: string, z: string)
    requires Word(x) && Word(y) && Word(z)
    ensures GithubHashFormatter(x + " " + y + " (" + z + ")") ==
      ToLowerAscii(x) + "-" + ToLowerAscii(y) + "-" + ToLowerAscii(z)
  {
    var t5 := [')'];
    var t4 := z + t5;
    var t3 := ['('] + t4;
    var t2 := [' '] + t3;
    var t1 := y + t2;
    var t0 := [' '] + t1;
    NestParens(x, y, z);
    GithubHashFormatterIsSlug(x + t0);
    SlugCons(')', "");
    SlugWordThen(z, t5);
    SlugCons('(', t4);
    SlugCons(' ', t3);
    SlugWordThen(y, t2);
    SlugCons(' ', t1);
    SlugWordThen(x, t0);
    NestHyphens(ToLowerAscii(x), ToLowerAscii(y), ToLowerAscii(z));
  }

  lemma NestParens(x: string, y: string, z: string)
    ensures x + " " + y + " (" + z + ")" == x + ([' '] + (y + ([' '] + (['('] + (z + [')'])))))
  {
  }

  lemma NestHyphens(a: string, b: string, c: string)
    ensures a + ("-" + (b + ("-" + ("" + (c + ("" + "")))))) == a + "-" + b + "-" + c
  {
  }

  lemma SlugCons(c: char, s: string)
    ensures Slug([c] + s) == SlugOf(c) + Slug(s)
  {
    assert ([c] + s)[1..] == s;
  }
}
