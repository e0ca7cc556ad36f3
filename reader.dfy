/**
 * The reader's front half: the metadata text taken from the notebook's first
 * cell, the search for a `keep_input` declaration in it, and the Markdown
 * document that is handed on for conversion to HTML.
 */
module Reader {
  import opened Wrappers
  import opened Text
  import opened Notebook

  /** What aborts a read before any Markdown exists. */
  datatype ReadError =
    | NoCells               // `cells[0]` of an empty cell list
    | FirstCellNotMarkdown  // the assertion on the first cell's type
    | KeepInputUnbound      // `keep_input` read while never assigned

  /** The first cell, which must be a markdown cell, as metadata text: its joined source and a paragraph break. */
  function GetMetadata(cells: seq<Cell>): Result<string, ReadError> {
    if |cells| == 0 then Failure(NoCells)
    else if cells[0].cellType != Some("markdown") then Failure(FirstCellNotMarkdown)
    else Success(Join(cells[0].source.GetOr([])) + "\n\n")
  }

  /**
   * The metadata text is what the renderer makes of the same first cell, and it
   * exists exactly when that cell is there and is a markdown cell.
   */
  lemma MetadataIsFirstCellRender(cells: seq<Cell>, options: RenderOptions)
    ensures GetMetadata(cells).Success? <==> |cells| > 0 && cells[0].cellType == Some("markdown")
    ensures |cells| == 0 ==> GetMetadata(cells) == Failure(NoCells)
    ensures GetMetadata(cells).Success? ==> GetMetadata(cells).value == RenderCell(cells[0], options)
  {
  }

  // ----- the pattern  keep_input[ ]*\:[ ]*([true|false]+)  with IGNORECASE -----

  const Key: string := "keep_input"

  /** `t` with every ASCII capital replaced by its small letter: how IGNORECASE compares it. */
  function Lowered(t: string): string {
    if t == [] then [] else [ToLower(t[0])] + Lowered(t[1..])
  }

  /** The character class `[true|false]`: one of `t r u e | f a l s`, in either case. */
  predicate IsValueChar(c: char) {
    ToLower(c) in "true|false"
  }

  /** The key spelled, in any case, at position `p`. */
  predicate KeyAt(s: string, p: nat) {
    p + |Key| <= |s| && Lowered(s[p..p + |Key|]) == Key
  }

  /** The first position from `i` on that is not a blank: the end of the greedy `[ ]*` run. */
  function SkipBlanks(s: string, i: nat): (j: nat)
    requires i <= |s|
    ensures i <= j <= |s|
    ensures forall k :: i <= k < j ==> s[k] == ' '
    ensures j == |s| || s[j] != ' '
    decreases |s| - i
  {
    if i < |s| && s[i] == ' ' then SkipBlanks(s, i + 1) else i
  }

  /** The end of the greedy run of value characters that starts at `i`. */
  function ValueEnd(s: string, i: nat): (j: nat)
    requires i <= |s|
    ensures i <= j <= |s|
    ensures forall k :: i <= k < j ==> IsValueChar(s[k])
    ensures j == |s| || !IsValueChar(s[j])
    decreases |s| - i
  {
    if i < |s| && IsValueChar(s[i]) then ValueEnd(s, i + 1) else i
  }

  /**
   * The pattern tried at position `p`: the captured value, or `None` when it
   * does not match there. Blanks and value characters are disjoint, so the
   * greedy runs never need to give anything back.
   */
  function MatchAt(s: string, p: nat): (r: Option<string>)
    requires p <= |s|
    ensures r.Some? ==> |r.value| > 0 && forall k :: 0 <= k < |r.value| ==> IsValueChar(r.value[k])
  {
    if !KeyAt(s, p) then None
    else
      var colon := SkipBlanks(s, p + |Key|);
      if colon == |s| || s[colon] != ':' then None
      else
        var start := SkipBlanks(s, colon + 1);
        var end := ValueEnd(s, start);
        if end == start then None else Some(s[start..end])
  }

  /** `re.search`: the value captured by the leftmost match at or after `from`. */
  function Search(s: string, from: nat): Option<string>
    requires from <= |s|
    decreases |s| - from
  {
    if MatchAt(s, from).Some? then MatchAt(s, from)
    else if from == |s| then None
    else Search(s, from + 1)
  }

  /**
   * The pattern, read as a statement about positions: the key at `p`, `a`
   * blanks, a colon, `b` blanks, then at least one value character.
   */
  ghost predicate PatternAt(s: string, p: nat, a: nat, b: nat) {
    var colon := p + |Key| + a;
    var value := colon + 1 + b;
    && value < |s|
    && KeyAt(s, p)
    && (forall k :: p + |Key| <= k < colon ==> s[k] == ' ')
    && s[colon] == ':'
    && (forall k :: colon < k < value ==> s[k] == ' ')
    && IsValueChar(s[value])
  }

  /** Some substring of `s` matches the pattern. */
  ghost predicate MentionsKeepInput(s: string) {
    exists p: nat, a: nat, b: nat :: PatternAt(s, p, a, b)
  }

  /** A match found at `p` is an occurrence of the pattern there. */
  lemma MatchAtSound(s: string, p: nat) returns (a: nat, b: nat)
    requires p <= |s| && MatchAt(s, p).Some?
    ensures PatternAt(s, p, a, b)
  {
    var colon := SkipBlanks(s, p + |Key|);
    var start := SkipBlanks(s, colon + 1);
    a, b := colon - p - |Key|, start - colon - 1;
  }

  /** An occurrence of the pattern at `p` is found when the search tries `p`. */
  lemma MatchAtComplete(s: string, p: nat, a: nat, b: nat)
    requires PatternAt(s, p, a, b)
    ensures MatchAt(s, p).Some?
  {
  }

  /** The search reports a value when some position at or after `from` matches. */
  lemma {:induction false} SearchComplete(s: string, from: nat, p: nat)
    requires from <= p <= |s| && MatchAt(s, p).Some?
    ensures Search(s, from).Some?
    decreases p - from
  {
    if MatchAt(s, from).None? {
      SearchComplete(s, from + 1, p);
    }
  }

  /** What the search reports is a match at some position at or after `from`. */
  lemma {:induction false} SearchSound(s: string, from: nat) returns (p: nat)
    requires from <= |s| && Search(s, from).Some?
    ensures from <= p <= |s| && MatchAt(s, p) == Search(s, from)
    decreases |s| - from
  {
    if MatchAt(s, from).Some? {
      p := from;
    } else {
      assert from < |s| && Search(s, from) == Search(s, from + 1);
      p := SearchSound(s, from + 1);
    }
  }

  /** The search reports the match at the leftmost matching position, as `re.search` does. */
  lemma {:induction false} SearchLeftmost(s: string, from: nat, p: nat)
    requires from <= p <= |s| && MatchAt(s, p).Some?
    requires forall q :: from <= q < p ==> MatchAt(s, q).None?
    ensures Search(s, from) == MatchAt(s, p)
    decreases p - from
  {
    if from < p {
      assert MatchAt(s, from).None?;
      assert Search(s, from) == Search(s, from + 1);
      SearchLeftmost(s, from + 1, p);
    }
  }

  /**
   * The search agrees with the pattern: it finds a value exactly when the text
   * mentions `keep_input`, and a value it finds is a non-empty run of value characters.
   */
  lemma SearchIffMentioned(s: string)
    ensures Search(s, 0).Some? <==> MentionsKeepInput(s)
    ensures Search(s, 0).Some? ==>
      |Search(s, 0).value| > 0 && forall k :: 0 <= k < |Search(s, 0).value| ==> IsValueChar(Search(s, 0).value[k])
  {
    if Search(s, 0).Some? {
      var p := SearchSound(s, 0);
      var a, b := MatchAtSound(s, p);
    }
    if MentionsKeepInput(s) {
      var p: nat, a: nat, b: nat :| PatternAt(s, p, a, b);
      MatchAtComplete(s, p, a, b);
      SearchComplete(s, 0, p);
    }
  }

  // ----- read -----

  /**
   * The `keep_input` value `read` computes: `bool(value.title())` for the
   * captured value, or an unbound variable when nothing matched.
   */
  function ReadKeepInput(cells: seq<Cell>): Result<bool, ReadError> {
    var metadata :- GetMetadata(cells);
    match Search(metadata, 0)
    case None => Failure(KeepInputUnbound)
    case Some(value) => Success(Truthy(Title(value)))
  }

  /** The Markdown document `read` converts: every cell rendered with the option found. */
  function ReadMarkdown(cells: seq<Cell>): Result<string, ReadError> {
    var keep :- ReadKeepInput(cells);
    Success(NbToMarkdown(cells, RenderOptions(Some(keep))))
  }

  /**
   * The option can only come out true: whatever value is declared, `"false"`
   * included, a declaration makes `keep_input` true, and no declaration fails the read.
   */
  lemma KeepInputOnlyTrue(cells: seq<Cell>)
    ensures ReadKeepInput(cells) != Success(false)
    ensures ReadKeepInput(cells).Success? <==>
      GetMetadata(cells).Success? && MentionsKeepInput(GetMetadata(cells).value)
    ensures GetMetadata(cells).Failure? ==> ReadKeepInput(cells) == Failure(GetMetadata(cells).error)
    ensures GetMetadata(cells).Success? && !MentionsKeepInput(GetMetadata(cells).value) ==>
      ReadKeepInput(cells) == Failure(KeepInputUnbound)
  {
    if GetMetadata(cells).Success? {
      var metadata := GetMetadata(cells).value;
      SearchIffMentioned(metadata);
      if Search(metadata, 0).Some? {
        TitleTruthy(Search(metadata, 0).value);
      }
    }
  }

  /** The whole document never differs from the one rendered with code input shown. */
  lemma {:induction false} ReadAlwaysShowsInput(cells: seq<Cell>)
    ensures ReadMarkdown(cells).Success? <==> ReadKeepInput(cells).Success?
    ensures ReadMarkdown(cells).Success? ==>
      ReadMarkdown(cells).value == NbToMarkdown(cells, RenderOptions(None))
  {
    KeepInputOnlyTrue(cells);
    if ReadKeepInput(cells).Success? {
      assert Renders(cells, RenderOptions(Some(true))) == Renders(cells, RenderOptions(None)) by {
        forall i | 0 <= i < |cells|
          ensures RenderCell(cells[i], RenderOptions(Some(true))) == RenderCell(cells[i], RenderOptions(None))
        {
          MissingKeepInputShowsInput(cells[i]);
        }
      }
    }
  }

  /** Text without ASCII capitals is left as it is by lowering. */
  lemma {:induction false} LoweredNoCapitals(t: string)
    requires forall k :: 0 <= k < |t| ==> !IsAsciiUpper(t[k])
    ensures Lowered(t) == t
  {
    if t != [] {
      LoweredNoCapitals(t[1..]);
    }
  }

  /** `keep_input: false` is a declaration. */
  lemma DeclaredFalseMentioned(m: string)
    requires m == Key + ": false"
    ensures MentionsKeepInput(m)
  {
    var rest := ": false";
    assert m[0..|Key|] == Key && m[|Key|..] == rest;
    LoweredNoCapitals(Key);
    assert rest[0] == ':' && rest[1] == ' ' && rest[2] == 'f';
    assert PatternAt(m, 0, 0, 1);
  }

  /** A declared `false` still shows the input. */
  lemma DeclaredFalseShowsInput(rest: seq<Cell>)
    ensures var first := Cell(Some("markdown"), Some([Key + ": false"]), None, None, None);
      ReadKeepInput([first] + rest) == Success(true)
  {
    var first := Cell(Some("markdown"), Some([Key + ": false"]), None, None, None);
    JoinSingle(Key + ": false");
    var metadata := GetMetadata([first] + rest).value;
    assert metadata == Key + ": false" + "\n\n";
    DeclaredFalseMentioned(Key + ": false");
    MentionedInLonger(Key + ": false", "\n\n");
    KeepInputOnlyTrue([first] + rest);
  }

  /** A declaration stays a declaration when more text follows it. */
  lemma MentionedInLonger(m: string, tail: string)
    requires MentionsKeepInput(m)
    ensures MentionsKeepInput(m + tail)
  {
    var p: nat, a: nat, b: nat :| PatternAt(m, p, a, b);
    var s := m + tail;
    assert s[p..p + |Key|] == m[p..p + |Key|];
    assert PatternAt(s, p, a, b);
  }

  /** A first cell that declares nothing makes the read fail rather than fall back to showing input. */
  lemma UndeclaredFails(rest: seq<Cell>)
    ensures var first := Cell(Some("markdown"), Some(["Title: Notes"]), None, None, None);
      ReadKeepInput([first] + rest) == Failure(KeepInputUnbound)
  {
    var first := Cell(Some("markdown"), Some(["Title: Notes"]), None, None, None);
    var metadata := GetMetadata([first] + rest).value;
    assert metadata == "Title: Notes\n\n";
    KeepInputOnlyTrue([first] + rest);
  }
}
