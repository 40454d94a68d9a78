/**
 * `formatter.util.ts`: the two hash formatters again, and the title
 * formatter that escapes brackets so that a heading's text can stand inside
 * a Markdown link label.
 */
module FormatterUtil {
  import HashUtil
  import opened Js

  /** `githubHashFormatter` of this file; it is the slug of `hash.util.ts`. */
  function GithubHashFormatter(title: string): (r: string)
    ensures r == HashUtil.GithubHashFormatter(title)
  {
    HashUtil.RemoveInvalid(HashUtil.ReplaceWhiteSpace(HashUtil.ToLowerAscii(title)))
  }

  /** `defaultHashFormatter`: the identity, as `defaultFormatter` of `hash.util.ts`. */
  function DefaultHashFormatter(title: string): (r: string)
    ensures r == title
  {
    HashUtil.DefaultFormatter(title)
  }

  const Backslash: char := '\\'

  /** The brackets `defaultTitleFormatter` escapes. */
  const Brackets: set<char> := {'(', ')', '[', ']'}

  /** The length of the run of backslashes `s` starts with. */
  function LeadingBackslashes(s: string): (k: nat)
    ensures k <= |s|
    ensures k < |s| ==> s[k] != Backslash
  {
    if |s| == 0 || s[0] != Backslash then 0 else 1 + LeadingBackslashes(s[1..])
  }

  /** The run is made of backslashes only. */
  lemma LeadingRun(s: string)
    ensures forall i :: 0 <= i < LeadingBackslashes(s) ==> s[i] == Backslash
  {
    forall i | 0 <= i < LeadingBackslashes(s)
      ensures s[i] == Backslash
    {
      LeadingRunAt(s, i);
    }
  }

  lemma {:induction false} LeadingRunAt(s: string, i: nat)
    requires i < LeadingBackslashes(s)
    ensures s[i] == Backslash
  {
    if i > 0 {
      LeadingRunAt(s[1..], i - 1);
    }
  }

  /**
   * `s.replace(/\\*c/g, '\\c')`, as the regular-expression engine runs it:
   * at each position the greedy `\\*` takes the whole run of backslashes
   * there; if `c` follows, the run and `c` become `\c` and the scan goes on
   * after them, otherwise one character is kept and the scan moves one on.
   */
  function RegexReplace(s: string, c: char): string
    decreases |s|
  {
    if |s| == 0 then ""
    else
      var k := LeadingBackslashes(s);
      if k < |s| && s[k] == c then [Backslash, c] + RegexReplace(s[k + 1..], c)
      else [s[0]] + RegexReplace(s[1..], c)
  }

  /** `defaultTitleFormatter`: the four replacements in the source's order. */
  function DefaultTitleFormatter(title: string): string {
    RegexReplace(RegexReplace(RegexReplace(RegexReplace(title, '('), ')'), '['), ']')
  }

  /**
   * The intended meaning: every maximal run of backslashes (the empty run
   * included) directly before a character of `b` becomes exactly one
   * backslash; everything else is kept.
   */
  function EscapeRuns(s: string, b: set<char>): string
    decreases |s|
  {
    var k := LeadingBackslashes(s);
    if k == |s| then s
    else if s[k] in b then [Backslash, s[k]] + EscapeRuns(s[k + 1..], b)
    else s[..k + 1] + EscapeRuns(s[k + 1..], b)
  }

  // ---------------------------------------------------------------------
  // From the one-character regex scan to the block semantics

  /**
   * A block: a run of backslashes and the one other character that ends it.
   * `EscapeRuns` and the regex scan both work block by block.
   */
  predicate IsBlock(x: string) {
    && |x| >= 1 && x[|x| - 1] != Backslash
    && forall i :: 0 <= i < |x| - 1 ==> x[i] == Backslash
  }

  /** A string that does not end in its leading run is its first block and the rest. */
  lemma FirstBlock(s: string)
    requires LeadingBackslashes(s) < |s|
    ensures var k := LeadingBackslashes(s);
      IsBlock(s[..k + 1]) && s == s[..k + 1] + s[k + 1..]
  {
    var k := LeadingBackslashes(s);
    var x := s[..k + 1];
    forall i | 0 <= i < |x| - 1
      ensures x[i] == Backslash
    {
      LeadingRunAt(s, i);
      assert x[i] == s[i];
    }
    assert x[|x| - 1] == s[k];
    TakeDrop(s, k + 1);
  }

  lemma BlockTail(x: string)
    requires IsBlock(x) && |x| > 1
    ensures IsBlock(x[1..]) && x[0] == Backslash
  {
    forall i | 0 <= i < |x[1..]| - 1
      ensures x[1..][i] == Backslash
    {
      assert x[1..][i] == x[i + 1];
    }
  }

  lemma {:induction false} LeadingOfBlock(x: string, y: string)
    requires IsBlock(x)
    ensures LeadingBackslashes(x + y) == |x| - 1
    ensures (x + y)[|x| - 1] == x[|x| - 1]
    ensures (x + y)[|x|..] == y
    decreases |x|
  {
    if |x| > 1 {
      BlockTail(x);
      assert (x + y)[1..] == x[1..] + y;
      LeadingOfBlock(x[1..], y);
    }
  }

  /** The block semantics on one block followed by the rest. */
  lemma EscapeOverBlock(x: string, r: string, b: set<char>)
    requires IsBlock(x)
    ensures EscapeRuns(x + r, b) ==
      (if x[|x| - 1] in b then [Backslash, x[|x| - 1]] else x) + EscapeRuns(r, b)
  {
    LeadingOfBlock(x, r);
    assert (x + r)[..|x|] == x;
  }

  /** The scan keeps a string of backslashes only. */
  lemma {:induction false} RegexOverRun(s: string, c: char)
    requires c != Backslash && LeadingBackslashes(s) == |s|
    ensures RegexReplace(s, c) == s
  {
    if |s| > 0 {
      RegexOverRun(s[1..], c);
      assert s == [s[0]] + s[1..];
    }
  }

  /** The scan keeps a block that ends in a character other than `c`. */
  lemma {:induction false} RegexOverBlock(x: string, r: string, c: char)
    requires c != Backslash && IsBlock(x) && x[|x| - 1] != c
    ensures RegexReplace(x + r, c) == x + RegexReplace(r, c)
    decreases |x|
  {
    LeadingOfBlock(x, r);
    SplitFirst(x, r);
    SplitFirst(x, RegexReplace(r, c));
    if |x| > 1 {
      BlockTail(x);
      RegexOverBlock(x[1..], r, c);
    } else {
      assert x[1..] + r == r;
      assert x[1..] + RegexReplace(r, c) == RegexReplace(r, c);
    }
  }

  /** The scan turns a block that ends in `c` into `\c`. */
  lemma RegexOverMatch(x: string, r: string, c: char)
    requires c != Backslash && IsBlock(x) && x[|x| - 1] == c
    ensures RegexReplace(x + r, c) == [Backslash, c] + RegexReplace(r, c)
  {
    LeadingOfBlock(x, r);
  }

  /** A block escaped for `b` and then scanned for `c` is the block escaped for `b + {c}`. */
  lemma AfterEscapeStep(x: string, t: string, b: set<char>, c: char)
    requires c != Backslash && c !in b && IsBlock(x)
    requires RegexReplace(EscapeRuns(t, b), c) == EscapeRuns(t, b + {c})
    ensures RegexReplace(EscapeRuns(x + t, b), c) == EscapeRuns(x + t, b + {c})
  {
    var d := x[|x| - 1];
    var rest := EscapeRuns(t, b);
    EscapeOverBlock(x, t, b);
    EscapeOverBlock(x, t, b + {c});
    if d in b {
      assert IsBlock([Backslash, d]);
      RegexOverBlock([Backslash, d], rest, c);
    } else if d == c {
      RegexOverMatch(x, rest, c);
    } else {
      RegexOverBlock(x, rest, c);
    }
  }

  /** A further regex pass for a new bracket adds that bracket to the escaped set. */
  lemma {:induction false} RegexAfterEscape(s: string, b: set<char>, c: char)
    requires c != Backslash && c !in b
    ensures RegexReplace(EscapeRuns(s, b), c) == EscapeRuns(s, b + {c})
    decreases |s|
  {
    var k := LeadingBackslashes(s);
    if k == |s| {
      assert EscapeRuns(s, b) == s && EscapeRuns(s, b + {c}) == s;
      RegexOverRun(s, c);
    } else {
      FirstBlock(s);
      var x, t := s[..k + 1], s[k + 1..];
      RegexAfterEscape(t, b, c);
      AfterEscapeStep(x, t, b, c);
    }
  }

  /** One regex pass is the block semantics for its one bracket. */
  lemma RegexReplaceIsEscapeRuns(s: string, c: char)
    requires c != Backslash
    ensures RegexReplace(s, c) == EscapeRuns(s, {c})
  {
    EscapeRunsNoBracket(s, {});
    RegexAfterEscape(s, {}, c);
    assert {} + {c} == {c};
  }

  /** The four chained replacements escape the four brackets at once. */
  lemma DefaultTitleFormatterEscapes(title: string)
    ensures DefaultTitleFormatter(title) == EscapeRuns(title, Brackets)
  {
    RegexReplaceIsEscapeRuns(title, '(');
    RegexAfterEscape(title, {'('}, ')');
    RegexAfterEscape(title, {'(', ')'}, '[');
    RegexAfterEscape(title, {'(', ')', '['}, ']');
    assert {'('} + {')'} == {'(', ')'};
    assert {'(', ')'} + {'['} == {'(', ')', '['};
    assert {'(', ')', '['} + {']'} == Brackets;
  }

  // ---------------------------------------------------------------------
  // Properties of the block semantics

  /** The characters other than backslashes, in order. */
  function NonBackslash(s: string): (r: string)
    ensures forall i :: 0 <= i < |r| ==> r[i] != Backslash
  {
    if |s| == 0 then ""
    else (if s[0] == Backslash then "" else [s[0]]) + NonBackslash(s[1..])
  }

  lemma {:induction false} NonBackslashAppend(x: string, y: string)
    ensures NonBackslash(x + y) == NonBackslash(x) + NonBackslash(y)
  {
    if |x| == 0 {
      assert x + y == y;
    } else {
      assert (x + y)[1..] == x[1..] + y;
      NonBackslashAppend(x[1..], y);
    }
  }

  lemma {:induction false} NonBackslashOfBlock(x: string)
    requires IsBlock(x)
    ensures NonBackslash(x) == [x[|x| - 1]]
    decreases |x|
  {
    if |x| > 1 {
      BlockTail(x);
      NonBackslashOfBlock(x[1..]);
      assert x[1..][|x[1..]| - 1] == x[|x| - 1];
    }
  }

  /** Only backslashes are added or removed: every other character is kept, in order. */
  lemma {:induction false} EscapeKeepsOthers(s: string, b: set<char>)
    ensures NonBackslash(EscapeRuns(s, b)) == NonBackslash(s)
    decreases |s|
  {
    var k := LeadingBackslashes(s);
    if k < |s| {
      FirstBlock(s);
      var x, t := s[..k + 1], s[k + 1..];
      EscapeKeepsOthers(t, b);
      KeepsOthersStep(x, t, b);
    }
  }

  lemma KeepsOthersStep(x: string, t: string, b: set<char>)
    requires IsBlock(x)
    requires NonBackslash(EscapeRuns(t, b)) == NonBackslash(t)
    ensures NonBackslash(EscapeRuns(x + t, b)) == NonBackslash(x + t)
  {
    var d := x[|x| - 1];
    var y := if d in b then [Backslash, d] else x;
    EscapeOverBlock(x, t, b);
    NonBackslashAppend(y, EscapeRuns(t, b));
    NonBackslashAppend(x, t);
    NonBackslashOfBlock(x);
    assert IsBlock(y);
    NonBackslashOfBlock(y);
  }

  lemma {:induction false} NonBackslashCount(s: string, c: char)
    requires c != Backslash
    ensures multiset(NonBackslash(s))[c] == multiset(s)[c]
  {
    if |s| > 0 {
      NonBackslashCount(s[1..], c);
      var h := if s[0] == Backslash then "" else [s[0]];
      assert NonBackslash(s) == h + NonBackslash(s[1..]);
      assert s == [s[0]] + s[1..];
      assert multiset(s) == multiset([s[0]]) + multiset(s[1..]);
      assert multiset(NonBackslash(s)) == multiset(h) + multiset(NonBackslash(s[1..]));
    }
  }

  /** Every character other than a backslash (each bracket in particular) occurs as often as before. */
  lemma DefaultTitleFormatterCounts(title: string, c: char)
    requires c != Backslash
    ensures multiset(DefaultTitleFormatter(title))[c] == multiset(title)[c]
  {
    DefaultTitleFormatterEscapes(title);
    EscapeKeepsOthers(title, Brackets);
    NonBackslashCount(title, c);
    NonBackslashCount(EscapeRuns(title, Brackets), c);
  }

  /** Every character of `b` in `r` has exactly one backslash right before it. */
  predicate SinglyEscaped(r: string, b: set<char>) {
    forall i :: 0 <= i < |r| && r[i] in b ==>
      1 <= i && r[i - 1] == Backslash && (i == 1 || r[i - 2] != Backslash)
  }

  lemma SinglyEscapedAppend(x: string, y: string, b: set<char>)
    requires Backslash !in b
    requires SinglyEscaped(x, b) && SinglyEscaped(y, b)
    requires |x| >= 1 && x[|x| - 1] != Backslash
    ensures SinglyEscaped(x + y, b)
  {
    var r := x + y;
    forall i | 0 <= i < |r| && r[i] in b
      ensures 1 <= i && r[i - 1] == Backslash && (i == 1 || r[i - 2] != Backslash)
    {
      if i >= |x| {
        assert r[i] == y[i - |x|];
        if i - |x| >= 2 {
          assert r[i - 2] == y[i - |x| - 2];
        }
      }
    }
  }

  lemma {:induction false} EscapeRunsSinglyEscaped(s: string, b: set<char>)
    requires Backslash !in b
    ensures SinglyEscaped(EscapeRuns(s, b), b)
    decreases |s|
  {
    var k := LeadingBackslashes(s);
    LeadingRun(s);
    if k < |s| {
      var rest := EscapeRuns(s[k + 1..], b);
      EscapeRunsSinglyEscaped(s[k + 1..], b);
      var x := if s[k] in b then [Backslash, s[k]] else s[..k + 1];
      assert SinglyEscaped(x, b);
      SinglyEscapedAppend(x, rest, b);
    }
  }

  /** In the formatted title each bracket follows one backslash, itself not preceded by another. */
  lemma DefaultTitleFormatterEscapesOnce(title: string)
    ensures SinglyEscaped(DefaultTitleFormatter(title), Brackets)
  {
    DefaultTitleFormatterEscapes(title);
    EscapeRunsSinglyEscaped(title, Brackets);
  }

  /** Escaping twice is escaping once. */
  lemma {:induction false} EscapeRunsIdempotent(s: string, b: set<char>)
    ensures EscapeRuns(EscapeRuns(s, b), b) == EscapeRuns(s, b)
    decreases |s|
  {
    var k := LeadingBackslashes(s);
    if k < |s| {
      FirstBlock(s);
      var x, t := s[..k + 1], s[k + 1..];
      EscapeRunsIdempotent(t, b);
      IdempotentStep(x, t, b);
    }
  }

  lemma IdempotentStep(x: string, t: string, b: set<char>)
    requires IsBlock(x)
    requires EscapeRuns(EscapeRuns(t, b), b) == EscapeRuns(t, b)
    ensures EscapeRuns(EscapeRuns(x + t, b), b) == EscapeRuns(x + t, b)
  {
    var d := x[|x| - 1];
    var y := if d in b then [Backslash, d] else x;
    EscapeOverBlock(x, t, b);
    assert IsBlock(y);
    EscapeOverBlock(y, EscapeRuns(t, b), b);
  }

  /** Formatting an already formatted title changes nothing. */
  lemma DefaultTitleFormatterIdempotent(title: string)
    ensures DefaultTitleFormatter(DefaultTitleFormatter(title)) == DefaultTitleFormatter(title)
  {
    DefaultTitleFormatterEscapes(title);
    DefaultTitleFormatterEscapes(DefaultTitleFormatter(title));
    EscapeRunsIdempotent(title, Brackets);
  }

  lemma {:induction false} EscapeRunsNoBracket(s: string, b: set<char>)
    requires forall i :: 0 <= i < |s| ==> s[i] !in b
    ensures EscapeRuns(s, b) == s
    decreases |s|
  {
    var k := LeadingBackslashes(s);
    if k < |s| {
      EscapeRunsNoBracket(s[k + 1..], b);
      assert s == s[..k + 1] + s[k + 1..];
    }
  }

  /** A title without brackets is left as it is. */
  lemma DefaultTitleFormatterNoBracket(title: string)
    requires forall i :: 0 <= i < |title| ==> title[i] !in Brackets
    ensures DefaultTitleFormatter(title) == title
  {
    DefaultTitleFormatterEscapes(title);
    EscapeRunsNoBracket(title, Brackets);
  }

  /** The block semantics on one character other than a backslash followed by the rest. */
  lemma EscapeOverChar(c: char, r: string, b: set<char>)
    requires c != Backslash
    ensures EscapeRuns([c] + r, b) == (if c in b then [Backslash, c] else [c]) + EscapeRuns(r, b)
  {
    EscapeOverBlock([c], r, b);
  }

  /** `x` has neither backslashes nor characters of `b`. */
  predicate Plain(x: string, b: set<char>) {
    forall i :: 0 <= i < |x| ==> x[i] != Backslash && x[i] !in b
  }

  /** Plain text is passed over unchanged. */
  lemma {:induction false} EscapeOverPlain(x: string, r: string, b: set<char>)
    requires Plain(x, b)
    ensures EscapeRuns(x + r, b) == x + EscapeRuns(r, b)
  {
    if |x| > 0 {
      var c, x' := x[0], x[1..];
      PlainTail(x, b);
      EscapeOverPlain(x', r, b);
      var e := EscapeRuns(r, b);
      assert c != Backslash && c !in b;
      EscapeOverChar(c, x' + r, b);
      SplitFirst(x, r);
      SplitFirst(x, e);
    } else {
      assert x + r == r;
      assert x + EscapeRuns(r, b) == EscapeRuns(r, b);
    }
  }

  lemma PlainTail(x: string, b: set<char>)
    requires |x| > 0 && Plain(x, b)
    ensures Plain(x[1..], b)
  {
    forall i | 0 <= i < |x[1..]| ensures x[1..][i] != Backslash && x[1..][i] !in b {
      assert x[1..][i] == x[i + 1];
    }
  }

  /** Unescaped parentheses around plain text get one backslash each. */
  lemma EscapeExampleParens(x: string, y: string)
    requires Plain(x, Brackets) && Plain(y, Brackets)
    ensures DefaultTitleFormatter(x + "(" + y + ")") == x + "\\(" + y + "\\)"
  {
    DefaultTitleFormatterEscapes(x + "(" + y + ")");
    EscapeParens(x, y);
  }

  lemma EscapeParens(x: string, y: string)
    requires Plain(x, Brackets) && Plain(y, Brackets)
    ensures EscapeRuns(x + "(" + y + ")", Brackets) == x + "\\(" + y + "\\)"
  {
    var close: string := [')'];
    var r2 := y + close;
    var r1 := ['('] + r2;
    assert x + "(" + y + ")" == x + r1;
    EscapeOverChar(')', [], Brackets);
    assert close + [] == close;
    EscapeOverPlain(y, close, Brackets);
    EscapeOverChar('(', r2, Brackets);
    EscapeOverPlain(x, r1, Brackets);
    assert x + ([Backslash, '('] + (y + [Backslash, ')'])) == x + "\\(" + y + "\\)";
  }

  /** A run of two backslashes before a bracket shrinks to one. */
  lemma EscapeExampleRun(x: string)
    requires Plain(x, Brackets)
    ensures DefaultTitleFormatter("\\\\[" + x + "]") == "\\[" + x + "\\]"
  {
    DefaultTitleFormatterEscapes("\\\\[" + x + "]");
    EscapeRun(x);
  }

  lemma EscapeRun(x: string)
    requires Plain(x, Brackets)
    ensures EscapeRuns("\\\\[" + x + "]", Brackets) == "\\[" + x + "\\]"
  {
    var close: string := [']'];
    var r1 := x + close;
    var x0: string := [Backslash, Backslash, '['];
    assert "\\\\[" + x + "]" == x0 + r1;
    EscapeOverChar(']', [], Brackets);
    assert close + [] == close;
    EscapeOverPlain(x, close, Brackets);
    EscapeOverBlock(x0, r1, Brackets);
    assert [Backslash, '['] + (x + [Backslash, ']']) == "\\[" + x + "\\]";
  }
}
