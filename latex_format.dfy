/**
 * `format_latex_for_tiptap`: rewrite the LaTeX delimiters an AI reply uses
 * into the math nodes of the rich-text editor. Two passes run in order:
 * every `$$body$$` (shortest match, may span lines) becomes a block-math
 * `<div>`, then every remaining `$body$` with a non-empty, dollar-free body
 * becomes an inline-math `<span>`. Each pass is written as the
 * left-to-right scanner that the regular expression amounts to.
 */
module LatexFormat {
  import opened Wrappers
  import opened Text

  function BlockMath(body: string): string {
    "<div data-type=\"block-math\" data-latex=\"" + body + "\"></div>"
  }

  function InlineMath(body: string): string {
    "<span data-type=\"inline-math\" data-latex=\"" + body + "\"></span>"
  }

  /**
   * The block pass. At the leftmost `$$` the shortest body is the text up
   * to the next `$$`. When an opening `$$` has no closing one, no later
   * `$$` can have one either, so the rest of the text is left as it is.
   */
  function BlockPass(s: string): string
    decreases |s|
  {
    if |s| < 2 then s
    else if s[0] == '$' && s[1] == '$' then
      match Find(s, "$$", 2)
      case Some(j) => BlockMath(s[2..j]) + BlockPass(s[j + 2..])
      case None => s
    else [s[0]] + BlockPass(s[1..])
  }

  /**
   * The inline pass. A `$` opens a match only when the next `$` comes
   * after at least one other character; otherwise the `$` is copied and
   * scanning goes on from the next character.
   */
  function InlinePass(s: string): string
    decreases |s|
  {
    if s == [] then s
    else if s[0] == '$' then
      match Find(s, "$", 1)
      case Some(j) =>
        if j == 1 then "$" + InlinePass(s[1..])
        else InlineMath(s[1..j]) + InlinePass(s[j + 1..])
      case None => s
    else [s[0]] + InlinePass(s[1..])
  }

  /** `format_latex_for_tiptap(text)`: the block pass, then the inline pass. */
  function FormatLatexForTiptap(text: string): string {
    InlinePass(BlockPass(text))
  }

  // ------------------------------------------------------------ no dollar, no change

  lemma {:induction false} BlockPassWithoutDollar(s: string)
    requires '$' !in s
    ensures BlockPass(s) == s
    decreases |s|
  {
    if |s| >= 2 {
      BlockPassWithoutDollar(s[1..]);
    }
  }

  lemma {:induction false} InlinePassWithoutDollar(s: string)
    requires '$' !in s
    ensures InlinePass(s) == s
    decreases |s|
  {
    if s != [] {
      InlinePassWithoutDollar(s[1..]);
    }
  }

  /** A text without `$` comes back unchanged. */
  lemma FormatWithoutDollar(text: string)
    requires '$' !in text
    ensures FormatLatexForTiptap(text) == text
  {
    BlockPassWithoutDollar(text);
    InlinePassWithoutDollar(text);
  }

  // ------------------------------------------------------------ a reference rendering

  /** A text cut into plain runs and formulas. */
  datatype Piece = Plain(text: string) | Formula(body: string)

  /** `u` holds no `$$` and does not end in `$`: no `$$` can start inside it, whatever follows. */
  predicate LoneDollars(u: string) {
    !Contains(u, "$$") && (u == [] || u[|u| - 1] != '$')
  }

  lemma AtDollars(s: string, k: nat)
    ensures At(s, "$$", k) <==> k + 1 < |s| && s[k] == '$' && s[k + 1] == '$'
  {
    if k + 1 < |s| && s[k] == '$' && s[k + 1] == '$' {
      assert s[k..k + 2] == "$$";
    }
  }

  /** The pieces written with display delimiters `$$body$$`. */
  function DisplaySource(ps: seq<Piece>): string {
    if ps == [] then []
    else match ps[0]
      case Plain(t) => t + DisplaySource(ps[1..])
      case Formula(b) => "$$" + b + "$$" + DisplaySource(ps[1..])
  }

  /** The pieces with every formula as a block-math node. */
  function BlockMarkup(ps: seq<Piece>): string {
    if ps == [] then []
    else match ps[0]
      case Plain(t) => t + BlockMarkup(ps[1..])
      case Formula(b) => BlockMath(b) + BlockMarkup(ps[1..])
  }

  /** No piece holds a `$$` and none ends in `$`, so each delimiter pair is found as written. */
  predicate DisplayReady(ps: seq<Piece>) {
    forall i :: 0 <= i < |ps| ==> LoneDollars(if ps[i].Plain? then ps[i].text else ps[i].body)
  }

  /** One step of the block pass over a character that does not open `$$`. */
  lemma BlockPassCopies(s: string)
    requires s != []
    requires |s| >= 2 ==> s[0] != '$' || s[1] != '$'
    ensures BlockPass(s) == [s[0]] + BlockPass(s[1..])
  {
  }

  lemma {:induction false} BlockPassSkipsPlain(t: string, rest: string)
    requires LoneDollars(t)
    ensures BlockPass(t + rest) == t + BlockPass(rest)
    decreases |t|
  {
    if t == [] {
      assert t + rest == rest;
    } else {
      var s := t + rest;
      assert LoneDollars(t[1..]) by {
        forall k: nat | k <= |t[1..]|
          ensures !At(t[1..], "$$", k)
        {
          AtInSuffix(t, 1, "$$", k);
        }
      }
      BlockPassSkipsPlain(t[1..], rest);
      assert |s| >= 2 ==> s[0] != '$' || s[1] != '$' by {
        if |t| >= 2 {
          AtDollars(t, 0);
        }
      }
      BlockPassCopies(s);
      SplitHead(t, rest, BlockPass(rest));
    }
  }

  /** Taking the first character off `t + rest`, and putting it back in front of `t[1..] + x`. */
  lemma SplitHead(t: string, rest: string, x: string)
    requires t != []
    ensures (t + rest)[0] == t[0] && (t + rest)[1..] == t[1..] + rest
    ensures [t[0]] + (t[1..] + x) == t + x
  {
    assert [t[0]] + t[1..] == t;
  }

  lemma BlockPassClosesAfterBody(b: string, rest: string)
    requires LoneDollars(b)
    ensures BlockPass("$$" + b + "$$" + rest) == BlockMath(b) + BlockPass(rest)
  {
    var s := "$$" + b + "$$" + rest;
    var j := 2 + |b|;
    AtDollars(s, j);
    forall k | 2 <= k < j
      ensures !At(s, "$$", k)
    {
      AtDollars(s, k);
      assert s[k] == b[k - 2];
      if k + 1 < j {
        assert s[k + 1] == b[k - 1];
        AtDollars(b, k - 2);
      }
    }
    assert Find(s, "$$", 2) == Some(j);
    assert s[2..j] == b;
    assert s[j + 2..] == rest;
  }

  /**
   * Against the reference rendering: writing formulas between `$$` and
   * running the block pass turns exactly those formulas into block-math
   * nodes and leaves the plain runs alone.
   */
  lemma {:induction false} BlockPassRendersFormulas(ps: seq<Piece>)
    requires DisplayReady(ps)
    ensures BlockPass(DisplaySource(ps)) == BlockMarkup(ps)
    decreases |ps|
  {
    if ps != [] {
      assert DisplayReady(ps[1..]) by {
        forall i | 0 <= i < |ps| - 1 ensures LoneDollars(if ps[1..][i].Plain? then ps[1..][i].text else ps[1..][i].body) {
          assert ps[1..][i] == ps[i + 1];
        }
      }
      BlockPassRendersFormulas(ps[1..]);
      assert LoneDollars(if ps[0].Plain? then ps[0].text else ps[0].body);
      match ps[0]
      case Plain(t) =>
        BlockPassSkipsPlain(t, DisplaySource(ps[1..]));
      case Formula(b) =>
        assert DisplaySource(ps) == "$$" + b + "$$" + DisplaySource(ps[1..]);
        BlockPassClosesAfterBody(b, DisplaySource(ps[1..]));
    }
  }

  /** An opening `$$` with no closing `$$` after it stays in the text. */
  lemma BlockPassLeavesUnclosed(t: string)
    requires !Contains(t, "$$")
    ensures BlockPass("$$" + t) == "$$" + t
  {
    var s := "$$" + t;
    forall k | 2 <= k
      ensures !At(s, "$$", k)
    {
      if At(s, "$$", k) {
        AtInConcat("$$", t, "$$", k - 2);
      }
    }
  }

  // ------------------------------------------------------------ the inline pass

  /** The pieces written with inline delimiters `$body$`. */
  function InlineSource(ps: seq<Piece>): string {
    if ps == [] then []
    else match ps[0]
      case Plain(t) => t + InlineSource(ps[1..])
      case Formula(b) => "$" + b + "$" + InlineSource(ps[1..])
  }

  /** The pieces with every formula as an inline-math node. */
  function InlineMarkup(ps: seq<Piece>): string {
    if ps == [] then []
    else match ps[0]
      case Plain(t) => t + InlineMarkup(ps[1..])
      case Formula(b) => InlineMath(b) + InlineMarkup(ps[1..])
  }

  /** Plain runs hold no `$`; formulas are non-empty and hold no `$`. */
  predicate InlineReady(ps: seq<Piece>) {
    forall i :: 0 <= i < |ps| ==>
      match ps[i]
      case Plain(t) => '$' !in t
      case Formula(b) => b != [] && '$' !in b
  }

  /** One step of the inline pass over a character other than `$`. */
  lemma InlinePassCopies(s: string)
    requires s != [] && s[0] != '$'
    ensures InlinePass(s) == [s[0]] + InlinePass(s[1..])
  {
  }

  lemma {:induction false} InlinePassSkipsPlain(t: string, rest: string)
    requires '$' !in t
    ensures InlinePass(t + rest) == t + InlinePass(rest)
    decreases |t|
  {
    if t == [] {
      assert t + rest == rest;
    } else {
      var s := t + rest;
      assert '$' !in t[1..];
      InlinePassSkipsPlain(t[1..], rest);
      InlinePassCopies(s);
      SplitHead(t, rest, InlinePass(rest));
    }
  }

  lemma AtDollar(s: string, k: nat)
    ensures At(s, "$", k) <==> k < |s| && s[k] == '$'
  {
    if k < |s| && s[k] == '$' {
      assert s[k..k + 1] == "$";
    }
  }

  lemma InlinePassClosesAfterBody(b: string, rest: string)
    requires b != [] && '$' !in b
    ensures InlinePass("$" + b + "$" + rest) == InlineMath(b) + InlinePass(rest)
  {
    var s := "$" + b + "$" + rest;
    var j := 1 + |b|;
    AtDollar(s, j);
    forall k | 1 <= k < j
      ensures !At(s, "$", k)
    {
      AtDollar(s, k);
      assert s[k] == b[k - 1];
    }
    assert Find(s, "$", 1) == Some(j);
    assert s[1..j] == b;
    assert s[j + 1..] == rest;
  }

  /**
   * Against the reference rendering: writing non-empty, dollar-free
   * formulas between single `$` and running the inline pass turns exactly
   * those formulas into inline-math nodes.
   */
  lemma {:induction false} InlinePassRendersFormulas(ps: seq<Piece>)
    requires InlineReady(ps)
    ensures InlinePass(InlineSource(ps)) == InlineMarkup(ps)
    decreases |ps|
  {
    if ps != [] {
      assert InlineReady(ps[1..]) by {
        forall i | 0 <= i < |ps| - 1
          ensures match ps[1..][i]
            case Plain(t) => '$' !in t
            case Formula(b) => b != [] && '$' !in b
        {
          assert ps[1..][i] == ps[i + 1];
        }
      }
      InlinePassRendersFormulas(ps[1..]);
      match ps[0]
      case Plain(t) =>
        InlinePassSkipsPlain(t, InlineSource(ps[1..]));
      case Formula(b) =>
        assert InlineSource(ps) == "$" + b + "$" + InlineSource(ps[1..]);
        InlinePassClosesAfterBody(b, InlineSource(ps[1..]));
    }
  }

  /** A `$` with no `$` after it is left as it is. */
  lemma InlinePassLeavesUnclosed(t: string)
    requires '$' !in t
    ensures InlinePass("$" + t) == "$" + t
  {
    var s := "$" + t;
    forall k | 1 <= k
      ensures !At(s, "$", k)
    {
      AtDollar(s, k);
      if k < |s| {
        assert s[k] == t[k - 1];
      }
    }
  }

  // ------------------------------------------------------------ the order of the passes

  /**
   * The block pass runs first: `$$x$$` becomes one block-math node.
   */
  lemma DisplayFormulaBecomesBlock(b: string)
    requires b != [] && '$' !in b
    ensures FormatLatexForTiptap("$$" + b + "$$") == BlockMath(b)
  {
    assert LoneDollars(b) by {
      forall k: nat | k <= |b|
        ensures !At(b, "$$", k)
      {
        AtDollars(b, k);
      }
    }
    BlockPassClosesAfterBody(b, "");
    assert "$$" + b + "$$" + "" == "$$" + b + "$$";
    assert BlockPass("$$" + b + "$$") == BlockMath(b) + "";
    assert BlockMath(b) + "" == BlockMath(b);
    MarkupHasNoDollar(b);
    InlinePassWithoutDollar(BlockMath(b));
  }

  lemma MarkupHasNoDollar(b: string)
    requires '$' !in b
    ensures '$' !in BlockMath(b)
  {
  }

  /**
   * What the order prevents: the inline pass alone would have made an
   * inline node between two stray dollars.
   */
  lemma InlineAloneSplitsDisplayFormula(b: string)
    requires b != [] && '$' !in b
    ensures InlinePass("$$" + b + "$$") == "$" + InlineMath(b) + "$"
  {
    var s := "$$" + b + "$$";
    AtDollar(s, 1);
    assert Find(s, "$", 1) == Some(1);
    assert s[1..] == "$" + b + "$" + "$";
    InlinePassClosesAfterBody(b, "$");
    InlinePassLeavesUnclosed("");
    assert "$" + "" == "$";
    assert InlinePass(s) == "$" + InlinePass(s[1..]);
  }
}
