/**
  Formatted whitespace trivia: the whitespace the formatter puts between two
  tokens, given as a number of line breaks and a number of spaces (the
  indentation), rendered once into the replacement string.
 */
module Formatting {

  /** The two formatting options the rendering consults, looked up per language. */
  datatype OptionSet = OptionSet(useTabs: string -> bool, tabSize: string -> int)

  /**
    What the rendering takes from its surroundings: the newline string a line
    break appends, and the extension that renders an indentation of a given
    width from the use-tabs and tab-size options.
   */
  datatype Platform = Platform(newLine: string, indentationString: (int, bool, int) -> string)

  datatype TextSpan = TextSpan(start: int, length: int)

  /** Replace the text in span with newText. */
  datatype TextChange = TextChange(span: TextSpan, newText: string)

  datatype Exception = NotImplementedException

  datatype Result<T> = Success(value: T) | Failure(error: Exception)

  /** The larger of 0 and x. */
  function Max0(x: int): (r: nat)
    ensures r >= x
    ensures r == 0 || r == x
  {
    if x < 0 then 0 else x
  }

  /**
    Where block i starts when a string is cut into blocks of width w
    (i * w, see OffsetIsProduct), written as a sum so that proofs about
    blocks stay linear.
   */
  function Offset(i: nat, w: nat): nat
  {
    if i == 0 then 0 else Offset(i - 1, w) + w
  }

  lemma {:induction false} OffsetIsProduct(i: nat, w: nat)
    ensures Offset(i, w) == i * w
  {
    if i > 0 {
      OffsetIsProduct(i - 1, w);
      assert i * w == (i - 1) * w + w;
    }
  }

  /** Blocks of width 1 start at their own index. */
  lemma {:induction false} OffsetOne(n: nat)
    ensures Offset(n, 1) == n
  {
    if n > 0 {
      OffsetOne(n - 1);
    }
  }

  /** s written n times in a row. */
  function Repeat(s: string, n: nat): (r: string)
    ensures |r| == Offset(n, |s|)
  {
    if n == 0 then [] else s + Repeat(s, n - 1)
  }

  /** i copies followed by j copies are i + j copies. */
  lemma {:induction false} RepeatAdd(s: string, i: nat, j: nat)
    ensures Repeat(s, i) + Repeat(s, j) == Repeat(s, i + j)
  {
    if i > 0 {
      RepeatAdd(s, i - 1, j);
      calc {
        Repeat(s, i) + Repeat(s, j);
        (s + Repeat(s, i - 1)) + Repeat(s, j);
        s + (Repeat(s, i - 1) + Repeat(s, j));
        s + Repeat(s, i - 1 + j);
        Repeat(s, i + j);
      }
    }
  }

  /** Writing s once more after n copies gives n + 1 copies. */
  lemma RepeatAppend(s: string, n: nat)
    ensures Repeat(s, n) + s == Repeat(s, n + 1)
  {
    RepeatAdd(s, n, 1);
    assert Repeat(s, 1) == s;
  }

  /** Copy i of n copies of s sits between i copies and the remaining n - 1 - i. */
  lemma RepeatSplit(s: string, n: nat, i: nat)
    requires i < n
    ensures Repeat(s, n) == Repeat(s, i) + s + Repeat(s, n - 1 - i)
  {
    RepeatAdd(s, i, n - i);
    assert Repeat(s, n - i) == s + Repeat(s, n - 1 - i);
  }

  /** Cut into blocks of width |s|, r has s as its block i. */
  predicate BlockIs(r: string, i: nat, s: string)
  {
    Offset(i + 1, |s|) <= |r| && r[Offset(i, |s|) .. Offset(i + 1, |s|)] == s
  }

  /** s is block i of a + s + b when a is i blocks long. */
  lemma BlockOf(a: string, s: string, b: string, i: nat)
    requires |a| == Offset(i, |s|)
    ensures BlockIs(a + s + b, i, s)
  {
    assert (a + s + b)[|a| .. |a| + |s|] == s;
  }

  /**
    Cut into blocks of width |s|, n copies of s followed by any tail start
    with n blocks that are each s.
   */
  lemma RepeatCopies(s: string, n: nat, tail: string)
    ensures forall i :: 0 <= i < n ==> BlockIs(Repeat(s, n) + tail, i, s)
  {
    forall i | 0 <= i < n
      ensures BlockIs(Repeat(s, n) + tail, i, s)
    {
      RepeatSplit(s, n, i);
      var a, b := Repeat(s, i), Repeat(s, n - 1 - i) + tail;
      assert Repeat(s, n) + tail == a + s + b;
      BlockOf(a, s, b, i);
    }
  }

  /** n copies of a one-character string are n of that character. */
  lemma {:induction false} RepeatChar(c: char, n: nat)
    ensures |Repeat([c], n)| == n
    ensures forall i :: 0 <= i < n ==> Repeat([c], n)[i] == c
  {
    OffsetOne(n);
    if n > 0 {
      RepeatChar(c, n - 1);
      assert Repeat([c], n) == [c] + Repeat([c], n - 1);
    }
  }

  /**
    The replacement whitespace. When the second token starts its line it is
    lineBreaks newlines followed by the indentation string for spaces;
    otherwise (the space case) it is spaces space characters, and neither the
    line breaks nor the options play a part.
   */
  function Rendered(lineBreaks: nat, spaces: nat, firstOnLine: bool, useTabs: bool, tabSize: int, platform: Platform): (r: string)
    ensures firstOnLine ==>
      |r| == Offset(lineBreaks, |platform.newLine|) + |platform.indentationString(spaces, useTabs, tabSize)|
    ensures !firstOnLine ==> |r| == spaces
  {
    OffsetOne(spaces);
    if firstOnLine then
      Repeat(platform.newLine, lineBreaks) + platform.indentationString(spaces, useTabs, tabSize)
    else
      Repeat(" ", spaces)
  }

  /**
    The space case renders exactly spaces copies of ' ', whatever the line
    breaks, the options and the platform are.
   */
  lemma SpaceCase(lineBreaks: nat, spaces: nat, useTabs: bool, tabSize: int, platform: Platform,
                  lineBreaks': nat, useTabs': bool, tabSize': int, platform': Platform)
    ensures var r := Rendered(lineBreaks, spaces, false, useTabs, tabSize, platform);
      && |r| == spaces
      && (forall i :: 0 <= i < |r| ==> r[i] == ' ')
      && r == Rendered(lineBreaks', spaces, false, useTabs', tabSize', platform')
  {
    RepeatChar(' ', spaces);
  }

  /**
    The line case renders lineBreaks newlines, one after the other, and then
    the indentation string for spaces under the two options.
   */
  lemma LineCase(lineBreaks: nat, spaces: nat, useTabs: bool, tabSize: int, platform: Platform)
    ensures var r, nl := Rendered(lineBreaks, spaces, true, useTabs, tabSize, platform), platform.newLine;
      && (forall i :: 0 <= i < lineBreaks ==> BlockIs(r, i, nl))
      && r[Offset(lineBreaks, |nl|)..] == platform.indentationString(spaces, useTabs, tabSize)
  {
    var nl, indentation := platform.newLine, platform.indentationString(spaces, useTabs, tabSize);
    RepeatCopies(nl, lineBreaks, indentation);
    assert (Repeat(nl, lineBreaks) + indentation)[Offset(lineBreaks, |nl|)..] == indentation;
  }

  /**
    Whitespace between two tokens that the formatter has settled on. It is
    immutable: the counts, the flag and the rendered string are fixed when it
    is constructed.
   */
  class FormattedWhitespace {
    const optionSet: OptionSet
    const language: string
    const platform: Platform
    /** Whether the second token starts its line (kept by the base trivia class). */
    const SecondTokenIsFirstTokenOnLine: bool
    const LineBreaks: nat
    const Spaces: nat
    const newString: string

    /** The replacement string is the rendering of this trivia's counts under its options. */
    ghost predicate Valid()
    {
      newString == Rendered(LineBreaks, Spaces, SecondTokenIsFirstTokenOnLine,
                            optionSet.useTabs(language), optionSet.tabSize(language), platform)
    }

    /** Negative counts are clamped to 0; the string is rendered here, once. */
    constructor (optionSet: OptionSet, lineBreaks: int, indentation: int, language: string,
                 secondTokenIsFirstTokenOnLine: bool, platform: Platform)
      ensures Valid()
      ensures LineBreaks == Max0(lineBreaks) && Spaces == Max0(indentation)
      ensures this.optionSet == optionSet && this.language == language && this.platform == platform
      ensures SecondTokenIsFirstTokenOnLine == secondTokenIsFirstTokenOnLine
    {
      this.optionSet := optionSet;
      this.language := language;
      this.platform := platform;
      SecondTokenIsFirstTokenOnLine := secondTokenIsFirstTokenOnLine;
      LineBreaks := Max0(lineBreaks);
      Spaces := Max0(indentation);
      var rendered := FormattedWhitespace.CreateString(Max0(lineBreaks), Max0(indentation), secondTokenIsFirstTokenOnLine,
                                                       optionSet.useTabs(language), optionSet.tabSize(language), platform);
      newString := rendered;
    }

    /** Builds the replacement string: a newline per line break, then the indentation; or the spaces. */
    static method CreateString(lineBreaks: nat, spaces: nat, firstOnLine: bool, useTabs: bool, tabSize: int,
                               platform: Platform) returns (r: string)
      ensures r == Rendered(lineBreaks, spaces, firstOnLine, useTabs, tabSize, platform)
    {
      if firstOnLine {
        var builder := "";
        var i := 0;
        while i < lineBreaks
          invariant 0 <= i <= lineBreaks
          invariant builder == Repeat(platform.newLine, i)
        {
          RepeatAppend(platform.newLine, i);
          builder := builder + platform.newLine;
          i := i + 1;
        }
        return builder + platform.indentationString(spaces, useTabs, tabSize);
      }
      r := seq(spaces, _ => ' ');
      RepeatChar(' ', spaces);
      assert r == Repeat(" ", spaces);
    }

    /** Formatted whitespace is never elastic. */
    function TreatAsElastic(): (r: bool)
      ensures !r
    {
      false
    }

    /** Formatted whitespace consists of whitespace only. */
    function IsWhitespaceOnlyTrivia(): (r: bool)
      ensures r
    {
      true
    }

    /** Formatted whitespace always counts as a change to apply. */
    function ContainsChanges(): (r: bool)
      ensures r
    {
      true
    }

    /** A single change: the span is replaced by the rendered whitespace. */
    function GetTextChanges(textSpan: TextSpan): (r: seq<TextChange>)
      requires Valid()
      ensures |r| == 1
      ensures r[0].span == textSpan
      ensures r[0].newText == Rendered(LineBreaks, Spaces, SecondTokenIsFirstTokenOnLine,
                                       optionSet.useTabs(language), optionSet.tabSize(language), platform)
    {
      [TextChange(textSpan, newString)]
    }

    /** Not supported by formatted whitespace: always fails. */
    function WithSpace(space: int): (r: Result<FormattedWhitespace>)
      ensures r == Failure(NotImplementedException)
    {
      Failure(NotImplementedException)
    }

    /** Not supported by formatted whitespace: always fails. */
    function WithLine(line: int, indentation: int): (r: Result<FormattedWhitespace>)
      ensures r == Failure(NotImplementedException)
    {
      Failure(NotImplementedException)
    }

    /** Not supported by formatted whitespace: always fails. */
    function WithIndentation(indentation: int): (r: Result<FormattedWhitespace>)
      ensures r == Failure(NotImplementedException)
    {
      Failure(NotImplementedException)
    }

    /** Not supported by formatted whitespace: always fails. */
    function Format(tokenPairIndex: int): (r: Result<()>)
      ensures r == Failure(NotImplementedException)
    {
      Failure(NotImplementedException)
    }
  }
}
