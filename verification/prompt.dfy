/** The keyword block of the generated prompt: one `- keyword` line per keyword. */
module Prompt {
  import opened Text

  /** `"\n".join(ls)`: the pieces with a newline between each two. */
  function JoinLines(ls: seq<string>): string
    decreases |ls|
  {
    if |ls| == 0 then ""
    else if |ls| == 1 then ls[0]
    else ls[0] + "\n" + JoinLines(ls[1..])
  }

  /**
   * `s.split("\n")`: the pieces between newlines, always at least one, none
   * holding a newline, and joining them back gives `s`.
   */
  function SplitLines(s: string): (ls: seq<string>)
    ensures |ls| >= 1
    ensures forall i :: 0 <= i < |ls| ==> '\n' !in ls[i]
    ensures JoinLines(ls) == s
    decreases |s|
  {
    match IndexOf(s, '\n')
    case None => [s]
    case Some(i) =>
      var rest := SplitLines(s[i + 1..]);
      assert ([s[..i]] + rest)[1..] == rest;
      assert s == s[..i] + "\n" + s[i + 1..];
      [s[..i]] + rest
  }

  /** Joining newline-free pieces and splitting the result gives the pieces back. */
  lemma {:induction false} SplitJoin(ls: seq<string>)
    requires |ls| >= 1
    requires forall i :: 0 <= i < |ls| ==> '\n' !in ls[i]
    ensures SplitLines(JoinLines(ls)) == ls
    decreases |ls|
  {
    if |ls| == 1 {
      assert IndexOf(ls[0], '\n').None?;
    } else {
      var rest := JoinLines(ls[1..]);
      var s := ls[0] + "\n" + rest;
      assert s[..|ls[0]|] == ls[0];
      IndexOfIsFirst(s, '\n', |ls[0]|);
      assert s[|ls[0]| + 1..] == rest;
      SplitJoin(ls[1..]);
      assert ls == [ls[0]] + ls[1..];
    }
  }

  /** The line for one keyword. */
  function Bullet(kw: string): string {
    "- " + kw
  }

  /** `"\n".join(f"- {kw}" for kw in kws)`; empty exactly when there are no keywords. */
  function FormatKeywords(kws: seq<string>): (s: string)
    ensures s == "" <==> |kws| == 0
  {
    var lines := seq(|kws|, i requires 0 <= i < |kws| => Bullet(kws[i]));
    assert |kws| > 0 ==> |JoinLines(lines)| > 0 by {
      if |kws| > 1 {
        assert JoinLines(lines) == lines[0] + "\n" + JoinLines(lines[1..]);
      }
    }
    JoinLines(lines)
  }

  /**
   * With newline-free keywords the block has exactly one line per keyword,
   * line `i` being `- ` followed by keyword `i`, and no trailing newline
   * (which would show up as an extra empty last line).
   */
  lemma FormatOneLinePerKeyword(kws: seq<string>)
    requires |kws| >= 1
    requires forall i :: 0 <= i < |kws| ==> '\n' !in kws[i]
    ensures |SplitLines(FormatKeywords(kws))| == |kws|
    ensures forall i :: 0 <= i < |kws| ==> SplitLines(FormatKeywords(kws))[i] == "- " + kws[i]
  {
    var lines := seq(|kws|, i requires 0 <= i < |kws| => Bullet(kws[i]));
    forall i | 0 <= i < |kws|
      ensures '\n' !in lines[i]
    {
      assert forall j :: 2 <= j < |lines[i]| ==> lines[i][j] == kws[i][j - 2];
    }
    SplitJoin(lines);
  }
}
