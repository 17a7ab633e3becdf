/** The text form of a block sequence: export renders one identifier per block,
    joined by newlines; import trims the text, splits it on runs of whitespace
    and commas, skips empty pieces and maps every piece back to its colour
    index, stopping at the first piece that is no identifier. */
module TextForm {
  import opened Wrappers
  import opened Types
  import opened Constants
  import opened Symbols

  /** `xs.join(sep)`: the pieces in order with `sep` between neighbours. */
  function Join(xs: seq<string>, sep: string): string {
    if |xs| == 0 then ""
    else if |xs| == 1 then xs[0]
    else xs[0] + sep + Join(xs[1..], sep)
  }

  /** A join is empty for no pieces, and otherwise starts with the first piece
      and ends with the last. */
  lemma {:induction false} JoinKeepsEnds(xs: seq<string>, sep: string)
    ensures |xs| == 0 ==> Join(xs, sep) == ""
    ensures |xs| > 0 ==> |xs[0]| <= |Join(xs, sep)| && Join(xs, sep)[..|xs[0]|] == xs[0]
    ensures |xs| > 0 ==> var r := Join(xs, sep);
      |xs[|xs| - 1]| <= |r| && r[|r| - |xs[|xs| - 1]|..] == xs[|xs| - 1]
  {
    if |xs| > 1 {
      JoinKeepsEnds(xs[1..], sep);
      var rest := Join(xs[1..], sep);
      var r := xs[0] + sep + rest;
      assert Join(xs, sep) == r;
      assert r[..|xs[0]|] == xs[0];
      assert r[|r| - |rest|..] == rest;
      assert xs[1..][|xs[1..]| - 1] == xs[|xs| - 1];
    }
  }

  /** The identifier of every block, in order. */
  function IdsOf(blocks: seq<nibble>): (ids: seq<string>)
    ensures |ids| == |blocks|
    ensures forall i :: 0 <= i < |blocks| ==> ids[i] == WoolIds[blocks[i]]
  {
    if |blocks| == 0 then [] else [WoolIds[blocks[0]]] + IdsOf(blocks[1..])
  }

  /** `blocksToIdString`: one identifier per block, newline-separated. The text
      is already trimmed, and for a non-empty sequence splitting it gives back
      exactly the identifiers of the blocks, in order. */
  function BlocksToIdString(blocks: seq<nibble>): (r: string)
    ensures |blocks| == 0 ==> r == ""
    ensures Trim(r) == r
    ensures |blocks| > 0 ==> Split(r) == IdsOf(blocks)
    ensures forall k :: 0 <= k < |r| && IsSeparator(r[k]) ==> r[k] == '\n'
    ensures |blocks| > 0 ==> Count(r, '\n') == |blocks| - 1
  {
    ExportLayout(blocks);
    ExportNewlines(blocks);
    Join(IdsOf(blocks), "\n")
  }

  /** The newline-joined identifiers of `blocks` are their own trim and split
      back into the identifiers. */
  lemma ExportLayout(blocks: seq<nibble>)
    ensures |blocks| == 0 ==> Join(IdsOf(blocks), "\n") == ""
    ensures Trim(Join(IdsOf(blocks), "\n")) == Join(IdsOf(blocks), "\n")
    ensures |blocks| > 0 ==> Split(Join(IdsOf(blocks), "\n")) == IdsOf(blocks)
  {
    if |blocks| > 0 {
      IdsOfAreTokens(blocks);
      TokensLayout(IdsOf(blocks));
    } else {
      assert Join(IdsOf(blocks), "\n") == "";
    }
  }

  /** Newline-joined tokens are their own trim and split back into the tokens. */
  lemma TokensLayout(ids: seq<string>)
    requires |ids| > 0 && forall i :: 0 <= i < |ids| ==> IsToken(ids[i])
    ensures Trim(Join(ids, "\n")) == Join(ids, "\n")
    ensures Split(Join(ids, "\n")) == ids
  {
    JoinEnds(ids);
    TrimUnchanged(Join(ids, "\n"));
    SplitJoin(ids, "");
    assert "" + ids[0] == ids[0];
    assert [ids[0]] + ids[1..] == ids;
  }

  /** The only separators in the newline-joined identifiers of `blocks` are the
      `|blocks| - 1` newlines between them. */
  lemma ExportNewlines(blocks: seq<nibble>)
    ensures var r := Join(IdsOf(blocks), "\n");
      forall k :: 0 <= k < |r| && IsSeparator(r[k]) ==> r[k] == '\n'
    ensures |blocks| > 0 ==> Count(Join(IdsOf(blocks), "\n"), '\n') == |blocks| - 1
  {
    if |blocks| > 0 {
      IdsOfAreTokens(blocks);
      JoinNewlines(IdsOf(blocks));
    } else {
      assert Join(IdsOf(blocks), "\n") == "";
    }
  }

  /** The number of occurrences of `c` in `s`. */
  function Count(s: string, c: char): nat {
    if |s| == 0 then 0 else (if s[0] == c then 1 else 0) + Count(s[1..], c)
  }

  lemma {:induction false} CountAppend(a: string, b: string, c: char)
    ensures Count(a + b, c) == Count(a, c) + Count(b, c)
  {
    if |a| > 0 {
      assert (a + b)[0] == a[0] && (a + b)[1..] == a[1..] + b;
      CountAppend(a[1..], b, c);
    } else {
      assert a + b == b;
    }
  }

  /** A separator-free text holds no newline. */
  lemma {:induction false} CountInToken(s: string)
    requires forall k :: 0 <= k < |s| ==> !IsSeparator(s[k])
    ensures Count(s, '\n') == 0
  {
    if |s| > 0 {
      assert !IsSeparator(s[0]);
      CountInToken(s[1..]);
    }
  }

  /** Joining tokens with newlines puts exactly one newline between neighbours
      and no other separator anywhere. */
  lemma {:induction false} JoinNewlines(ids: seq<string>)
    requires |ids| > 0 && forall i :: 0 <= i < |ids| ==> IsToken(ids[i])
    ensures var r := Join(ids, "\n");
      && (forall k :: 0 <= k < |r| && IsSeparator(r[k]) ==> r[k] == '\n')
      && Count(r, '\n') == |ids| - 1
  {
    assert IsToken(ids[0]);
    CountInToken(ids[0]);
    if |ids| > 1 {
      var rest := Join(ids[1..], "\n");
      JoinNewlines(ids[1..]);
      JoinStep(ids, "\n");
      var r := ids[0] + "\n" + rest;
      CountAppend(ids[0] + "\n", rest, '\n');
      CountAppend(ids[0], "\n", '\n');
      forall k | 0 <= k < |r|
        ensures IsSeparator(r[k]) ==> r[k] == '\n'
      {
        if k < |ids[0]| {
          assert r[k] == ids[0][k];
        } else if k > |ids[0]| {
          assert r[k] == rest[k - |ids[0]| - 1];
        }
      }
    }
  }

  /** Every exported identifier is a token: non-empty, without separators. */
  lemma IdsOfAreTokens(blocks: seq<nibble>)
    ensures forall i :: 0 <= i < |blocks| ==> IsToken(IdsOf(blocks)[i])
  {
    forall i | 0 <= i < |blocks|
      ensures IsToken(IdsOf(blocks)[i])
    {
      IdsAreTokens(blocks[i]);
    }
  }

  /** `s` without its leading run of whitespace. */
  function TrimStart(s: string): (r: string)
    ensures |r| <= |s| && r == s[|s| - |r|..]
    ensures |r| == 0 || !IsWhitespace(r[0])
  {
    if |s| > 0 && IsWhitespace(s[0]) then TrimStart(s[1..]) else s
  }

  /** `s` without its trailing run of whitespace. */
  function TrimEnd(s: string): (r: string)
    ensures |r| <= |s| && r == s[..|r|]
    ensures |r| == 0 || !IsWhitespace(r[|r| - 1])
  {
    if |s| > 0 && IsWhitespace(s[|s| - 1]) then TrimEnd(s[..|s| - 1]) else s
  }

  /** Everything `TrimStart` drops is whitespace. */
  lemma {:induction false} TrimStartDropsWhitespace(s: string)
    ensures forall k :: 0 <= k < |s| - |TrimStart(s)| ==> IsWhitespace(s[k])
  {
    if |s| > 0 && IsWhitespace(s[0]) {
      TrimStartDropsWhitespace(s[1..]);
      forall k | 1 <= k < |s| - |TrimStart(s)|
        ensures IsWhitespace(s[k])
      {
        assert s[k] == s[1..][k - 1];
      }
    }
  }

  /** Everything `TrimEnd` drops is whitespace. */
  lemma {:induction false} TrimEndDropsWhitespace(s: string)
    ensures forall k :: |TrimEnd(s)| <= k < |s| ==> IsWhitespace(s[k])
  {
    if |s| > 0 && IsWhitespace(s[|s| - 1]) {
      TrimEndDropsWhitespace(s[..|s| - 1]);
      forall k | |TrimEnd(s)| <= k < |s| - 1
        ensures IsWhitespace(s[k])
      {
        assert s[k] == s[..|s| - 1][k];
      }
    }
  }

  /** `String.prototype.trim`: the text without leading or trailing whitespace. */
  function Trim(s: string): string {
    TrimEnd(TrimStart(s))
  }

  /** `Trim(s)` is the slice of `s` starting at `i`, everything cut off on
      either side of it is whitespace, and it neither starts nor ends with
      whitespace. */
  lemma {:induction false} TrimSpec(s: string)
    ensures |s| - |TrimStart(s)| + |Trim(s)| <= |s|
    ensures Trim(s) == s[|s| - |TrimStart(s)|..|s| - |TrimStart(s)| + |Trim(s)|]
    ensures forall k :: 0 <= k < |s| - |TrimStart(s)| ==> IsWhitespace(s[k])
    ensures forall k :: |s| - |TrimStart(s)| + |Trim(s)| <= k < |s| ==> IsWhitespace(s[k])
    ensures |Trim(s)| == 0 || (!IsWhitespace(Trim(s)[0]) && !IsWhitespace(Trim(s)[|Trim(s)| - 1]))
  {
    TrimIsSliceOf(s);
    TrimDropsWhitespace(s);
    TrimStartDropsWhitespace(s);
  }

  lemma {:induction false} TrimIsSliceOf(s: string)
    ensures |s| - |TrimStart(s)| + |Trim(s)| <= |s|
    ensures Trim(s) == s[|s| - |TrimStart(s)|..|s| - |TrimStart(s)| + |Trim(s)|]
  {
    var t := TrimStart(s);
    TrimIsSlice(s, t, |s| - |t|, TrimEnd(t));
  }

  lemma {:induction false} TrimDropsWhitespace(s: string)
    ensures forall k :: |s| - |TrimStart(s)| + |Trim(s)| <= k < |s| ==> IsWhitespace(s[k])
  {
    var t := TrimStart(s);
    TrimEndCut(s, t, |s| - |t|, TrimEnd(t));
  }

  /** Trimming the end of the tail `t == s[i..]` leaves a slice of `s`. */
  lemma {:induction false} TrimIsSlice(s: string, t: string, i: nat, r: string)
    requires i <= |s| && t == s[i..] && r == TrimEnd(t)
    ensures i + |r| <= |s| && r == s[i..i + |r|]
  {
    assert r == t[..|r|];
  }

  /** What `TrimEnd` cuts off the tail `t == s[i..]` is whitespace of `s`. */
  lemma {:induction false} TrimEndCut(s: string, t: string, i: nat, r: string)
    requires i <= |s| && t == s[i..] && r == TrimEnd(t)
    ensures forall k :: i + |r| <= k < |s| ==> IsWhitespace(s[k])
  {
    TrimEndDropsWhitespace(t);
    forall k | i + |r| <= k < |s|
      ensures IsWhitespace(s[k])
    {
      assert s[k] == t[k - i];
    }
  }

  /** The text after a leading run of separators. */
  function DropSeparators(s: string): (r: string)
    ensures |r| <= |s| && r == s[|s| - |r|..]
    ensures |r| == 0 || !IsSeparator(r[0])
  {
    if |s| > 0 && IsSeparator(s[0]) then DropSeparators(s[1..]) else s
  }

  /** `s.split(/[\s,\n]+/)` with the piece read so far in `cur`: every maximal
      run of separators ends one piece and starts the next, so a separator at
      either end yields an empty piece there. */
  function SplitFrom(s: string, cur: string): (pieces: seq<string>)
    ensures |pieces| > 0
    decreases |s|
  {
    if |s| == 0 then [cur]
    else if IsSeparator(s[0]) then [cur] + SplitFrom(DropSeparators(s), "")
    else SplitFrom(s[1..], cur + [s[0]])
  }

  function Split(s: string): seq<string> {
    SplitFrom(s, "")
  }

  /** `s` contains no separator. */
  predicate SeparatorFree(s: string) {
    forall k :: 0 <= k < |s| ==> !IsSeparator(s[k])
  }

  /** `s` with every maximal run of separators replaced by a single `,`. */
  function Collapse(s: string): string
    decreases |s|
  {
    if |s| == 0 then ""
    else if IsSeparator(s[0]) then "," + Collapse(DropSeparators(s))
    else [s[0]] + Collapse(s[1..])
  }

  /** The pieces `SplitFrom` cuts: none holds a separator (given the piece read
      so far holds none), the first is non-empty when something non-separating
      starts it, every inner piece is non-empty, and joining the pieces with `,`
      gives the text with each maximal run of separators collapsed to one `,`.
      As `,` is itself a separator, this fixes the pieces exactly. */
  lemma {:induction false} SplitFromSpec(s: string, cur: string)
    ensures SeparatorFree(cur) ==> forall i :: 0 <= i < |SplitFrom(s, cur)| ==> SeparatorFree(SplitFrom(s, cur)[i])
    ensures cur != "" || (|s| > 0 && !IsSeparator(s[0])) ==> SplitFrom(s, cur)[0] != ""
    ensures forall i :: 0 < i < |SplitFrom(s, cur)| - 1 ==> SplitFrom(s, cur)[i] != ""
    ensures Join(SplitFrom(s, cur), ",") == cur + Collapse(s)
  {
    if SeparatorFree(cur) {
      SplitFromSeparatorFree(s, cur);
    }
    SplitFromNonEmpty(s, cur);
    SplitFromCollapses(s, cur);
  }

  lemma {:induction false} SplitFromSeparatorFree(s: string, cur: string)
    requires SeparatorFree(cur)
    ensures forall i :: 0 <= i < |SplitFrom(s, cur)| ==> SeparatorFree(SplitFrom(s, cur)[i])
    decreases |s|
  {
    if |s| == 0 {
    } else if IsSeparator(s[0]) {
      var q := SplitFrom(DropSeparators(s), "");
      SplitFromSeparatorFree(DropSeparators(s), "");
      assert SplitFrom(s, cur) == [cur] + q;
    } else {
      var c := cur + [s[0]];
      forall k | 0 <= k < |c|
        ensures !IsSeparator(c[k])
      {
        if k < |cur| { assert c[k] == cur[k]; } else { assert c[k] == s[0]; }
      }
      SplitFromSeparatorFree(s[1..], c);
    }
  }

  lemma {:induction false} SplitFromNonEmpty(s: string, cur: string)
    ensures cur != "" || (|s| > 0 && !IsSeparator(s[0])) ==> SplitFrom(s, cur)[0] != ""
    ensures forall i :: 0 < i < |SplitFrom(s, cur)| - 1 ==> SplitFrom(s, cur)[i] != ""
    decreases |s|
  {
    if |s| == 0 {
    } else if IsSeparator(s[0]) {
      var d := DropSeparators(s);
      var p := SplitFrom(s, cur);
      var q := SplitFrom(d, "");
      SplitFromNonEmpty(d, "");
      assert p == [cur] + q;
      forall i | 0 < i < |p| - 1
        ensures p[i] != ""
      {
        assert p[i] == q[i - 1];
      }
    } else {
      SplitFromNonEmpty(s[1..], cur + [s[0]]);
    }
  }

  lemma {:induction false} SplitFromCollapses(s: string, cur: string)
    ensures Join(SplitFrom(s, cur), ",") == cur + Collapse(s)
    decreases |s|
  {
    if |s| == 0 {
      assert cur + Collapse(s) == cur;
    } else if IsSeparator(s[0]) {
      var d := DropSeparators(s);
      SplitFromCollapses(d, "");
      CollapseAtSeparator(s, cur, SplitFrom(d, ""));
    } else {
      SplitFromCollapses(s[1..], cur + [s[0]]);
      CollapseAtChar(s, cur);
    }
  }

  /** A run of separators ends the current piece and becomes one `,`. */
  lemma {:induction false} CollapseAtSeparator(s: string, cur: string, q: seq<string>)
    requires |s| > 0 && IsSeparator(s[0]) && |q| > 0
    requires Join(q, ",") == "" + Collapse(DropSeparators(s))
    ensures Join([cur] + q, ",") == cur + Collapse(s)
  {
    JoinCons(cur, q, ",");
    var c := Collapse(DropSeparators(s));
    assert Collapse(s) == "," + c;
    assert Join(q, ",") == c;
    ConcatAssoc(cur, ",", c);
  }

  lemma ConcatAssoc(a: string, b: string, c: string)
    ensures a + b + c == a + (b + c)
  {
  }

  /** Joining a piece in front of a non-empty list puts the separator after it. */
  lemma {:induction false} JoinCons(x: string, q: seq<string>, sep: string)
    requires |q| > 0
    ensures Join([x] + q, sep) == x + sep + Join(q, sep)
  {
    var p := [x] + q;
    assert p[1..] == q;
    JoinStep(p, sep);
  }

  /** A character that is no separator joins the current piece. */
  lemma {:induction false} CollapseAtChar(s: string, cur: string)
    requires |s| > 0 && !IsSeparator(s[0])
    ensures cur + [s[0]] + Collapse(s[1..]) == cur + Collapse(s)
  {
    assert Collapse(s) == [s[0]] + Collapse(s[1..]);
  }

  /** The tokens the import loop looks up: every non-empty piece, trimmed. */
  function Tokens(lines: seq<string>): seq<string> {
    if |lines| == 0 then []
    else if lines[0] == "" then Tokens(lines[1..])
    else [Trim(lines[0])] + Tokens(lines[1..])
  }

  /** Tokenising distributes over concatenation: the pieces of `a` give their
      tokens first, then those of `b`. */
  lemma {:induction false} TokensAppend(a: seq<string>, b: seq<string>)
    ensures Tokens(a + b) == Tokens(a) + Tokens(b)
  {
    if |a| > 0 {
      assert (a + b)[0] == a[0] && (a + b)[1..] == a[1..] + b;
      TokensAppend(a[1..], b);
    } else {
      assert a + b == b;
    }
  }

  /** Tokenising is fixed piece by piece: no pieces give no tokens, an empty
      piece gives none, a non-empty one exactly its trim, and the tokens of a
      concatenation are those of its parts in order; so there is at most one
      token per piece. */
  lemma TokensSpec(lines: seq<string>)
    ensures Tokens([]) == []
    ensures forall x :: Tokens([x]) == (if x == "" then [] else [Trim(x)])
    ensures forall a, b :: Tokens(a + b) == Tokens(a) + Tokens(b)
    ensures |Tokens(lines)| <= |lines|
  {
    forall x
      ensures Tokens([x]) == (if x == "" then [] else [Trim(x)])
    {
      assert [x][1..] == [];
    }
    forall a, b
      ensures Tokens(a + b) == Tokens(a) + Tokens(b)
    {
      TokensAppend(a, b);
    }
    TokensBound(lines);
  }

  lemma {:induction false} TokensBound(lines: seq<string>)
    ensures |Tokens(lines)| <= |lines|
  {
    if |lines| > 0 {
      TokensBound(lines[1..]);
    }
  }

  // The import loop is written over the identifier lookup it is given; the
  // import passes `FromId`, the lookup through the reverse map.

  /** `blocks` are the colour indices `lookup` gives `tokens`, one for one and
      in order. */
  predicate ParsedAs(tokens: seq<string>, blocks: seq<nibble>, lookup: string -> Option<nibble>) {
    |blocks| == |tokens| && forall i :: 0 <= i < |blocks| ==> lookup(tokens[i]) == Some(blocks[i])
  }

  /** The first token of `tokens` that `lookup` does not know, if any. */
  function FirstUnknown(tokens: seq<string>, lookup: string -> Option<nibble>): Option<string> {
    if |tokens| == 0 then None
    else if lookup(tokens[0]).None? then Some(tokens[0])
    else FirstUnknown(tokens[1..], lookup)
  }

  /** `FirstUnknown` finds the earliest unknown token: every token before it is
      known, and it is `None` only when every token is known. */
  lemma {:induction false} FirstUnknownIsFirst(tokens: seq<string>, lookup: string -> Option<nibble>)
    ensures FirstUnknown(tokens, lookup).None? <==> forall i :: 0 <= i < |tokens| ==> lookup(tokens[i]).Some?
    ensures FirstUnknown(tokens, lookup).Some? ==>
      exists j ::
        && 0 <= j < |tokens|
        && tokens[j] == FirstUnknown(tokens, lookup).value
        && lookup(tokens[j]).None?
        && forall k :: 0 <= k < j ==> lookup(tokens[k]).Some?
  {
    if |tokens| > 0 {
      FirstUnknownIsFirst(tokens[1..], lookup);
      if lookup(tokens[0]).None? {
        assert tokens[0] == FirstUnknown(tokens, lookup).value;
      } else if FirstUnknown(tokens, lookup).Some? {
        var rest := tokens[1..];
        var j :| 0 <= j < |rest| && rest[j] == FirstUnknown(rest, lookup).value && lookup(rest[j]).None?
          && forall k :: 0 <= k < j ==> lookup(rest[k]).Some?;
        assert tokens[j + 1] == rest[j];
        assert forall k :: 0 <= k < j + 1 ==> lookup(tokens[k]).Some?;
      } else {
        assert forall i :: 1 <= i < |tokens| ==> tokens[i] == tokens[1..][i - 1];
      }
    }
  }

  lemma TokensCons(lines: seq<string>)
    requires |lines| > 0 && lines[0] != ""
    ensures Tokens(lines) == [Trim(lines[0])] + Tokens(lines[1..])
  {
  }

  lemma FirstUnknownCons(lines: seq<string>, lookup: string -> Option<nibble>)
    requires |lines| > 0 && lines[0] != ""
    ensures FirstUnknown(Tokens(lines), lookup) ==
      if lookup(Trim(lines[0])).None? then Some(Trim(lines[0])) else FirstUnknown(Tokens(lines[1..]), lookup)
  {
    TokensCons(lines);
    assert Tokens(lines)[1..] == Tokens(lines[1..]);
  }

  lemma ParsedAsCons(lines: seq<string>, b: nibble, bs: seq<nibble>, lookup: string -> Option<nibble>)
    requires |lines| > 0 && lines[0] != "" && lookup(Trim(lines[0])) == Some(b)
    requires ParsedAs(Tokens(lines[1..]), bs, lookup)
    ensures ParsedAs(Tokens(lines), [b] + bs, lookup)
  {
    TokensCons(lines);
  }

  /** The import loop of `idStringToBlocks` over the split pieces: skips empty
      pieces and fails on the first token the lookup does not know, naming it;
      otherwise returns the colour index of every token, in order. */
  function ParseLines(lines: seq<string>, lookup: string -> Option<nibble>): (r: Result<seq<nibble>, CodecError>)
    ensures r.Success? <==> FirstUnknown(Tokens(lines), lookup).None?
    ensures r.Success? ==> ParsedAs(Tokens(lines), r.value, lookup)
    ensures r.Failure? ==> r.error == UnknownId(FirstUnknown(Tokens(lines), lookup).value)
  {
    if |lines| == 0 then Success([])
    else if lines[0] == "" then ParseLines(lines[1..], lookup)
    else
      var id := Trim(lines[0]);
      FirstUnknownCons(lines, lookup);
      match lookup(id)
      case None => Failure(UnknownId(id))
      case Some(b) =>
        match ParseLines(lines[1..], lookup)
        case Failure(e) => Failure(e)
        case Success(bs) =>
          ParsedAsCons(lines, b, bs, lookup);
          Success([b] + bs)
  }

  /** Newline-joined tokens neither start nor end with a separator. */
  lemma {:induction false} JoinEnds(ids: seq<string>)
    requires |ids| > 0 && forall i :: 0 <= i < |ids| ==> IsToken(ids[i])
    ensures var text := Join(ids, "\n");
      |text| > 0 && !IsSeparator(text[0]) && !IsSeparator(text[|text| - 1])
  {
    assert IsToken(ids[0]);
    if |ids| > 1 {
      JoinEnds(ids[1..]);
      assert Join(ids, "\n") == ids[0] + "\n" + Join(ids[1..], "\n");
    }
  }

  /** Text that neither starts nor ends with whitespace is its own trim. */
  lemma TrimUnchanged(s: string)
    requires |s| == 0 || (!IsWhitespace(s[0]) && !IsWhitespace(s[|s| - 1]))
    ensures Trim(s) == s
  {
  }

  /** Reading the characters of a token adds them to the current piece. */
  lemma {:induction false} SplitThroughToken(x: string, rest: string, cur: string)
    requires forall i :: 0 <= i < |x| ==> !IsSeparator(x[i])
    ensures SplitFrom(x + rest, cur) == SplitFrom(rest, cur + x)
  {
    if |x| > 0 {
      var s := x + rest;
      assert s[0] == x[0] && !IsSeparator(s[0]);
      assert s[1..] == x[1..] + rest;
      assert SplitFrom(s, cur) == SplitFrom(s[1..], cur + [x[0]]);
      SplitThroughToken(x[1..], rest, cur + [x[0]]);
      assert cur + [x[0]] + x[1..] == cur + x;
    } else {
      assert x + rest == rest && cur + x == cur;
    }
  }

  /** A newline after a token ends the token's piece; the next piece starts
      at the following token. */
  lemma SplitAtNewline(x: string, tail: string, cur: string)
    requires forall i :: 0 <= i < |x| ==> !IsSeparator(x[i])
    requires |tail| > 0 && !IsSeparator(tail[0])
    ensures SplitFrom(x + "\n" + tail, cur) == [cur + x] + SplitFrom(tail, "")
  {
    var nl: string := "\n" + tail;
    assert x + "\n" + tail == x + nl;
    SplitThroughToken(x, nl, cur);
    assert nl[1..] == tail;
    assert DropSeparators(nl) == tail;
  }

  /** Joining two or more pieces puts the separator after the first. */
  lemma JoinStep(xs: seq<string>, sep: string)
    requires |xs| > 1
    ensures Join(xs, sep) == xs[0] + sep + Join(xs[1..], sep)
  {
  }

  /** Splitting newline-joined tokens gives back the tokens, the first one
      extended by the piece already read. */
  lemma {:induction false} SplitJoin(ids: seq<string>, cur: string)
    requires |ids| > 0 && forall i :: 0 <= i < |ids| ==> IsToken(ids[i])
    ensures SplitFrom(Join(ids, "\n"), cur) == [cur + ids[0]] + ids[1..]
  {
    assert IsToken(ids[0]);
    if |ids| == 1 {
      assert Join(ids, "\n") == ids[0] + "";
      SplitThroughToken(ids[0], "", cur);
    } else {
      var tail := Join(ids[1..], "\n");
      JoinEnds(ids[1..]);
      JoinStep(ids, "\n");
      SplitAtNewline(ids[0], tail, cur);
      SplitJoin(ids[1..], "");
      assert "" + ids[1] == ids[1];
      assert [ids[1]] + ids[1..][1..] == ids[1..];
    }
  }

  lemma ParseLinesCons(lines: seq<string>, b: nibble, bs: seq<nibble>, lookup: string -> Option<nibble>)
    requires |lines| > 0 && lines[0] != ""
    requires lookup(Trim(lines[0])) == Some(b) && ParseLines(lines[1..], lookup) == Success(bs)
    ensures ParseLines(lines, lookup) == Success([b] + bs)
  {
  }

  /** The identifier of the first block is a non-empty piece that the import
      loop maps back to that block. */
  lemma FirstIdParses(blocks: seq<nibble>)
    requires |blocks| > 0
    ensures IdsOf(blocks)[0] != ""
    ensures FromId(Trim(IdsOf(blocks)[0])) == Some(blocks[0])
    ensures IdsOf(blocks)[1..] == IdsOf(blocks[1..])
  {
    var ids := IdsOf(blocks);
    IdsAreTokens(blocks[0]);
    TrimUnchanged(ids[0]);
    FromIdInvertsIds(blocks[0]);
  }

  /** The import loop takes back every identifier of a run of non-empty tokens. */
  lemma {:induction false} ParseLinesOfIds(blocks: seq<nibble>)
    ensures ParseLines(IdsOf(blocks), FromId) == Success(blocks)
  {
    if |blocks| > 0 {
      FirstIdParses(blocks);
      ParseLinesOfIds(blocks[1..]);
      ParseLinesCons(IdsOf(blocks), blocks[0], blocks[1..], FromId);
      assert [blocks[0]] + blocks[1..] == blocks;
    }
  }

  /** Importing the exported text of any block sequence gives back that sequence. */
  lemma TextRoundTrip(blocks: seq<nibble>)
    ensures ParseLines(Split(Trim(BlocksToIdString(blocks))), FromId) == Success(blocks)
  {
    if |blocks| == 0 {
      assert ParseLines([""], FromId) == ParseLines([], FromId);
    } else {
      ParseLinesOfIds(blocks);
    }
  }
}
