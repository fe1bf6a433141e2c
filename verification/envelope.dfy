/**
 * Unwrapping the call-like envelope around the suggestion payload:
 * `window.google.ac.h([...])` becomes `[...]`.
 */
module Envelope {
  import opened Text

  /** `s.split(c, 1)[-1]`: everything after the first `c`, or all of `s` when there is none. */
  function AfterFirst(s: string, c: char): (r: string)
    ensures |r| <= |s| && r == s[|s| - |r|..]
    ensures c !in s ==> r == s
    ensures c in s ==> |r| < |s| && s[|s| - |r| - 1] == c && c !in s[..|s| - |r| - 1]
  {
    match IndexOf(s, c)
    case None => s
    case Some(i) => s[i + 1..]
  }

  /** `s.rsplit(c, 1)[0]`: everything before the last `c`, or all of `s` when there is none. */
  function BeforeLast(s: string, c: char): (r: string)
    ensures |r| <= |s| && r == s[..|r|]
    ensures c !in s ==> r == s
    ensures c in s ==> |r| < |s| && s[|r|] == c && c !in s[|r| + 1..]
  {
    match LastIndexOf(s, c)
    case None => s
    case Some(j) => s[..j]
  }

  /** The text handed to the JSON decoder: after the first `(`, then before the last `)`. */
  function Strip(text: string): (r: string)
    ensures |r| <= |text|
    ensures '(' !in text && ')' !in text ==> r == text
  {
    BeforeLast(AfterFirst(text, '('), ')')
  }

  /** Whatever the input, the stripped text is a contiguous piece of it. */
  lemma StripSubstring(text: string)
    ensures exists i, j :: 0 <= i <= j <= |text| && Strip(text) == text[i..j]
  {
    var body := AfterFirst(text, '(');
    var r := BeforeLast(body, ')');
    assert r == text[|text| - |body|..|text| - |body| + |r|];
  }

  /** Cutting at a `(` with none before it keeps exactly what follows it. */
  lemma AfterFirstAt(s: string, c: char, i: nat)
    requires i < |s| && s[i] == c && c !in s[..i]
    ensures AfterFirst(s, c) == s[i + 1..]
  {
    IndexOfIsFirst(s, c, i);
  }

  /** Cutting at a `)` with none after it keeps exactly what precedes it. */
  lemma BeforeLastAt(s: string, c: char, j: nat)
    requires j < |s| && s[j] == c && c !in s[j + 1..]
    ensures BeforeLast(s, c) == s[..j]
  {
    LastIndexOfIsLast(s, c, j);
  }

  /** Stripping `p(b)s` yields exactly `b` when `p` has no `(` and `s` has no `)`. */
  lemma StripEnvelope(p: string, b: string, s: string)
    requires '(' !in p && ')' !in s
    ensures Strip(p + "(" + b + ")" + s) == b
  {
    var body := b + ")" + s;
    var text := p + "(" + body;
    assert p + "(" + b + ")" + s == text;
    assert text[..|p|] == p && text[|p|] == '(';
    AfterFirstAt(text, '(', |p|);
    assert text[|p| + 1..] == body;
    assert body[|b| + 1..] == s && body[|b|] == ')';
    BeforeLastAt(body, ')', |b|);
    assert body[..|b|] == b;
  }
}
